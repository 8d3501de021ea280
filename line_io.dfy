/**
 * The standard-library text primitives the record classes and the consoles rely on:
 * `std::getline` with a delimiter, `atoi`, and writing an `int` to a stream in decimal.
 * A stream is the string of characters not yet read.
 */
module LineIo {
  import opened Wrappers

  /** Position of the first `delim` in `s`, or |s| when there is none. */
  function Find(s: string, delim: char): (k: nat)
    ensures k <= |s|
    ensures k < |s| ==> s[k] == delim
    ensures forall j :: 0 <= j < k ==> s[j] != delim
  {
    if s == [] then 0
    else if s[0] == delim then 0
    else 1 + Find(s[1..], delim)
  }

  /**
   * `std::getline(stream, line, delim)` on a stream holding `s`: nothing can be
   * extracted from an empty stream, which then fails (None); otherwise the line is
   * everything up to the first `delim`, which is consumed but not stored, or up to
   * the end of the stream.
   */
  function GetLine(s: string, delim: char): (r: Option<(string, string)>)
    ensures r.None? <==> s == []
    ensures r.Some? ==> delim !in r.value.0
    ensures r.Some? ==> (s == r.value.0 && r.value.1 == [])
                        || s == r.value.0 + [delim] + r.value.1
  {
    if s == [] then None
    else
      var k := Find(s, delim);
      if k == |s| then Some((s, []))
      else
        assert s == s[..k] + [delim] + s[k + 1..];
        Some((s[..k], s[k + 1..]))
  }

  /** A line written before `delim` is read back whole, whatever follows. */
  lemma GetLineOfWritten(line: string, delim: char, rest: string)
    requires delim !in line
    ensures GetLine(line + [delim] + rest, delim) == Some((line, rest))
  {
    var s := line + [delim] + rest;
    var k := Find(s, delim);
    assert s[|line|] == delim;
    assert forall j :: 0 <= j < |line| ==> s[j] == line[j];
    assert k == |line|;
    assert s[..k] == line && s[k + 1..] == rest;
  }

  /** A last line without the delimiter is read whole, and ends the stream. */
  lemma GetLineOfNoDelimiter(line: string, delim: char)
    requires line != [] && delim !in line
    ensures GetLine(line, delim) == Some((line, []))
  {
    assert Find(line, delim) == |line|;
  }

  /** `isspace` in the C locale: space, \t, \n, \v, \f and \r. */
  predicate IsSpace(c: char) {
    c == ' ' || 9 <= c as int <= 13
  }

  predicate IsDigit(c: char) {
    '0' <= c <= '9'
  }

  predicate AllDigits(s: string) {
    forall i :: 0 <= i < |s| ==> IsDigit(s[i])
  }

  function DigitValue(c: char): (d: nat)
    requires IsDigit(c)
    ensures d < 10
  {
    c as int - '0' as int
  }

  function Digit(d: nat): (c: char)
    requires d < 10
    ensures IsDigit(c) && DigitValue(c) == d
  {
    ('0' as int + d) as char
  }

  /** The string with its leading white space removed. */
  function SkipSpaces(s: string): (r: string)
    ensures |r| <= |s| && r == s[|s| - |r|..]
    ensures r != [] ==> !IsSpace(r[0])
    ensures forall i :: 0 <= i < |s| - |r| ==> IsSpace(s[i])
  {
    if s != [] && IsSpace(s[0]) then SkipSpaces(s[1..]) else s
  }

  /** The longest prefix of `s` made of digits. */
  function LeadingDigits(s: string): (d: string)
    ensures d <= s && AllDigits(d)
    ensures |d| < |s| ==> !IsDigit(s[|d|])
  {
    if s != [] && IsDigit(s[0]) then [s[0]] + LeadingDigits(s[1..]) else []
  }

  /** The number a string of decimal digits denotes. */
  function DigitsValue(d: string): nat
    requires AllDigits(d)
  {
    if d == [] then 0 else 10 * DigitsValue(d[..|d| - 1]) + DigitValue(d[|d| - 1])
  }

  /**
   * `atoi`: optional white space, an optional sign, then the longest run of digits;
   * a string with no such digits gives 0.  (Overflow, undefined in C, is not modelled:
   * the model's integers are unbounded.)
   */
  function Atoi(s: string): int {
    var t := SkipSpaces(s);
    if t != [] && (t[0] == '-' || t[0] == '+') then
      var v: int := DigitsValue(LeadingDigits(t[1..]));
      if t[0] == '-' then -v else v
    else
      DigitsValue(LeadingDigits(t))
  }

  /** What `stream << n` writes for a non-negative `n`: its decimal digits, no leading zero. */
  function NatToDecimal(n: nat): (s: string)
    ensures s != [] && AllDigits(s)
    ensures |s| > 1 ==> s[0] != '0'
  {
    if n < 10 then [Digit(n)] else NatToDecimal(n / 10) + [Digit(n % 10)]
  }

  /** What `stream << n` writes for an `int`: a minus sign before a negative number. */
  function IntToDecimal(n: int): (s: string)
    ensures s != [] && '\n' !in s
  {
    if n < 0 then "-" + NatToDecimal(-n) else NatToDecimal(n)
  }

  lemma {:induction false} DigitsValueOfNatToDecimal(n: nat)
    ensures DigitsValue(NatToDecimal(n)) == n
  {
    if n >= 10 {
      DigitsValueOfNatToDecimal(n / 10);
      var s := NatToDecimal(n);
      assert s[..|s| - 1] == NatToDecimal(n / 10);
    }
  }

  lemma {:induction false} LeadingDigitsOfDigits(d: string)
    requires AllDigits(d)
    ensures LeadingDigits(d) == d
  {
    if d != [] {
      LeadingDigitsOfDigits(d[1..]);
      assert d == [d[0]] + d[1..];
    }
  }

  lemma AtoiOfDigits(d: string)
    requires d != [] && AllDigits(d)
    ensures Atoi(d) == DigitsValue(d) && Atoi("-" + d) == -(DigitsValue(d) as int)
  {
    LeadingDigitsOfDigits(d);
    assert !IsSpace(d[0]) && SkipSpaces(d) == d;
    var s := "-" + d;
    assert !IsSpace(s[0]) && SkipSpaces(s) == s;
    assert s[1..] == d;
  }

  /** `atoi` reads back every integer that `<<` printed. */
  lemma AtoiOfDecimal(n: int)
    ensures Atoi(IntToDecimal(n)) == n
  {
    var m := if n < 0 then -n else n;
    DigitsValueOfNatToDecimal(m);
    AtoiOfDigits(NatToDecimal(m));
  }

  /** A line with no number where `atoi` looks for one converts to 0. */
  predicate HasNoNumber(s: string) {
    var t := SkipSpaces(s);
    if t != [] && (t[0] == '-' || t[0] == '+') then t[1..] == [] || !IsDigit(t[1])
    else t == [] || !IsDigit(t[0])
  }

  lemma AtoiOfNoNumber(s: string)
    requires HasNoNumber(s)
    ensures Atoi(s) == 0
  {
  }

  /** What `>>` leaves behind: the value read, the input not yet read, and whether the stream is still good. */
  datatype Extraction<T> = Extraction(value: T, rest: string, good: bool)

  /**
   * A text line, then a line converted with `atoi`: how Prompt and Question read
   * themselves.  When the second `getline` cannot extract anything the count's
   * string stays empty, so the count is `atoi("") == 0`, and the stream fails; when
   * the first fails, the text has been erased as well.
   */
  function ReadTextAndCount(input: string): (r: Extraction<(string, int)>)
    ensures '\n' !in r.value.0 && |r.rest| < |input| + (if r.good then 0 else 1)
  {
    match GetLine(input, '\n')
    case None => Extraction(("", 0), [], false)
    case Some((text, rest)) =>
      match GetLine(rest, '\n')
      case None => Extraction((text, 0), [], false)
      case Some((count, rest')) => Extraction((text, Atoi(count)), rest', true)
  }

  /**
   * The read succeeds exactly when a newline ends the text line and something follows it;
   * the count is then `atoi` of the second line, which ends at the next newline or at
   * the end of the input.
   */
  lemma ReadTextAndCountShape(input: string)
    ensures var r := ReadTextAndCount(input);
            (r.good <==> |input| >= 2 && '\n' in input[..|input| - 1])
            && (r.good ==> exists line :: '\n' !in line && r.value.1 == Atoi(line)
                             && (input == r.value.0 + "\n" + line + "\n" + r.rest
                                 || (input == r.value.0 + "\n" + line && r.rest == [])))
  {
    match GetLine(input, '\n')
    case None =>
    case Some((text, rest)) =>
      match GetLine(rest, '\n')
      case None =>
        NoNewlineBeforeLast(text, input);
      case Some((count, rest')) =>
        NewlineBeforeLast(text, rest);
        SecondLine(text, count, rest, rest');
  }

  /** One line, with or without its newline, has no newline before its last character. */
  lemma NoNewlineBeforeLast(text: string, input: string)
    requires '\n' !in text && input != [] && (input == text || input == text + "\n")
    ensures '\n' !in input[..|input| - 1]
  {
    if input != text {
      assert input[..|input| - 1] == text;
    }
  }

  /** A newline followed by more text lies before the last character. */
  lemma NewlineBeforeLast(text: string, rest: string)
    requires rest != []
    ensures var s := text + "\n" + rest; |s| >= 2 && '\n' in s[..|s| - 1]
  {
    var s := text + "\n" + rest;
    assert s[..|s| - 1][|text|] == '\n';
  }

  /** The second line of a read, ended by a newline or by the end of the input. */
  lemma SecondLine(text: string, count: string, rest: string, rest': string)
    requires (rest == count && rest' == []) || rest == count + "\n" + rest'
    ensures text + "\n" + rest == text + "\n" + count + "\n" + rest'
            || (text + "\n" + rest == text + "\n" + count && rest' == [])
  {
    if rest != count || rest' != [] {
      assert text + "\n" + rest == text + "\n" + count + "\n" + rest';
    }
  }

  /** The text, a newline, the count in decimal, a newline: how Prompt and Question write themselves. */
  function WriteTextAndCount(text: string, count: int): string {
    text + "\n" + IntToDecimal(count) + "\n"
  }

  /** Reading what was written gives back the text and the count, provided the text is one line. */
  lemma ReadWrittenTextAndCount(text: string, count: int, rest: string)
    requires '\n' !in text
    ensures ReadTextAndCount(WriteTextAndCount(text, count) + rest)
            == Extraction((text, count), rest, true)
  {
    var digits := IntToDecimal(count);
    assert WriteTextAndCount(text, count) + rest == text + ['\n'] + (digits + ['\n'] + rest);
    GetLineOfWritten(text, '\n', digits + ['\n'] + rest);
    GetLineOfWritten(digits, '\n', rest);
    AtoiOfDecimal(count);
  }

  /** A count line with no number in it reads as 0. */
  lemma ReadNonNumericCount(text: string, line: string, rest: string)
    requires '\n' !in text && '\n' !in line && HasNoNumber(line)
    ensures ReadTextAndCount(text + "\n" + line + "\n" + rest)
            == Extraction((text, 0), rest, true)
  {
    assert text + "\n" + line + "\n" + rest == text + ['\n'] + (line + ['\n'] + rest);
    GetLineOfWritten(text, '\n', line + ['\n'] + rest);
    GetLineOfWritten(line, '\n', rest);
    AtoiOfNoNumber(line);
  }

  /** The pieces successive `std::getline(stream, piece, delim)` calls extract before one fails. */
  function Pieces(s: string, delim: char): seq<string>
    decreases |s|
  {
    match GetLine(s, delim)
    case None => []
    case Some((piece, rest)) => [piece] + Pieces(rest, delim)
  }

  /** The pieces put back together with `delim` between them. */
  function Join(pieces: seq<string>, delim: char): string {
    if pieces == [] then []
    else if |pieces| == 1 then pieces[0]
    else pieces[0] + [delim] + Join(pieces[1..], delim)
  }

  /** The delimiter that ends `s`, if it ends with one. */
  function Trailing(s: string, delim: char): string {
    if s != [] && s[|s| - 1] == delim then [delim] else []
  }

  /**
   * Splitting loses nothing but a single trailing delimiter: joining the pieces
   * gives the input back, less its last character when that is the delimiter.
   */
  lemma {:induction false} JoinPieces(s: string, delim: char)
    ensures Join(Pieces(s, delim), delim) + Trailing(s, delim) == s
    decreases |s|
  {
    if s != [] {
      var k := Find(s, delim);
      if k == |s| {
        PiecesOfNoDelimiter(s, delim);
      } else {
        SplitAt(s, k, delim);
        JoinPieces(s[k + 1..], delim);
        JoinPiecesStep(s[..k], delim, s[k + 1..]);
      }
    }
  }

  /** The step of JoinPieces: from what follows the first delimiter to the whole string. */
  lemma JoinPiecesStep(piece: string, delim: char, rest: string)
    requires delim !in piece
    requires Join(Pieces(rest, delim), delim) + Trailing(rest, delim) == rest
    ensures Join(Pieces(piece + [delim] + rest, delim), delim) + Trailing(piece + [delim] + rest, delim)
            == piece + [delim] + rest
  {
    PiecesOfWritten(piece, delim, rest);
    var s := piece + [delim] + rest;
    var tail := Pieces(rest, delim);
    if rest == [] {
      assert Pieces(s, delim) == [piece] && Trailing(s, delim) == [delim];
    } else {
      assert tail != [] by {
        assert GetLine(rest, delim).Some?;
      }
      JoinCons(piece, tail, delim);
      TrailingOfLonger(piece + [delim], rest, delim);
      Reassociate(piece + [delim], Join(tail, delim), Trailing(rest, delim));
    }
  }

  /** A non-empty string ends as what is appended to it ends. */
  lemma TrailingOfLonger(front: string, rest: string, delim: char)
    requires rest != []
    ensures Trailing(front + rest, delim) == Trailing(rest, delim)
  {
    assert (front + rest)[|front + rest| - 1] == rest[|rest| - 1];
  }

  lemma Reassociate(a: string, b: string, c: string)
    ensures a + b + c == a + (b + c)
  {
  }

  /** `s` cut around the delimiter at `k`. */
  lemma SplitAt(s: string, k: nat, delim: char)
    requires k < |s| && s[k] == delim
    ensures s == s[..k] + [delim] + s[k + 1..]
  {
  }

  /** Joining a first piece onto a non-empty list of pieces puts the delimiter between them. */
  lemma JoinCons(piece: string, tail: seq<string>, delim: char)
    requires tail != []
    ensures Join([piece] + tail, delim) == piece + [delim] + Join(tail, delim)
  {
    assert ([piece] + tail)[1..] == tail;
  }

  /** A piece written before the delimiter is the first piece, whatever follows. */
  lemma PiecesOfWritten(piece: string, delim: char, rest: string)
    requires delim !in piece
    ensures Pieces(piece + [delim] + rest, delim) == [piece] + Pieces(rest, delim)
  {
    GetLineOfWritten(piece, delim, rest);
  }

  /** A non-empty string without the delimiter is one piece. */
  lemma PiecesOfNoDelimiter(piece: string, delim: char)
    requires piece != [] && delim !in piece
    ensures Pieces(piece, delim) == [piece]
  {
    GetLineOfNoDelimiter(piece, delim);
    assert Pieces([], delim) == [];
  }

  /** No piece contains the delimiter. */
  lemma {:induction false} PiecesHaveNoDelimiter(s: string, delim: char)
    ensures forall i :: 0 <= i < |Pieces(s, delim)| ==> delim !in Pieces(s, delim)[i]
    decreases |s|
  {
    match GetLine(s, delim)
    case None =>
    case Some((piece, rest)) =>
      PiecesHaveNoDelimiter(rest, delim);
  }
}
