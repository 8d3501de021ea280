/**
 * The line handling both consoles share (the client's and the server's Interface.cpp
 * have the same `parseInput` and `validateInput`): a non-empty line is split on
 * spaces with `std::getline` into a command and its arguments, the command must be
 * registered, and the registered command checks its argument count.
 */
module Console {
  import opened Wrappers
  import opened LineIo
  import opened Command

  datatype InterfaceException = InterfaceException(message: string)

  /**
   * `parseInput`: the command is what the first `getline` extracts, the arguments
   * what each later one extracts until one fails.  An empty line extracts nothing.
   */
  method ParseInput(input: string) returns (command: string, arguments: seq<string>)
    ensures input == [] ==> command == [] && arguments == []
    ensures input != [] ==> [command] + arguments == Pieces(input, ' ')
  {
    var stream := input;
    command := [];
    match GetLine(stream, ' ') {
      case None =>
      case Some((first, rest)) =>
        command := first;
        stream := rest;
    }
    arguments := [];
    ghost var afterCommand := stream;
    while stream != []
      invariant arguments + Pieces(stream, ' ') == Pieces(afterCommand, ' ')
      decreases |stream|
    {
      var (argument, rest) := GetLine(stream, ' ').value;
      assert Pieces(stream, ' ') == [argument] + Pieces(rest, ' ');
      arguments := arguments + [argument];
      stream := rest;
    }
  }

  /** `validateInput`: an empty command, then an unregistered one, is an error. */
  function ValidateInput<A>(command: string, commands: map<string, Command<A>>): (r: Option<InterfaceException>)
    ensures r.None? <==> command != [] && command in commands
    ensures command == [] ==> r == Some(InterfaceException("No command entered!"))
    ensures command != [] && command !in commands ==> r == Some(InterfaceException("Invalid command!"))
  {
    if command == [] then Some(InterfaceException("No command entered!"))
    else if command !in commands then Some(InterfaceException("Invalid command!"))
    else None
  }

  /** What `echo` prints: every argument followed by a space, then a newline. */
  function Echoed(arguments: seq<string>): string {
    if arguments == [] then "\n"
    else arguments[0] + " " + Echoed(arguments[1..])
  }

  /** `echo` (the same in both consoles): the text it writes to the console. */
  method Echo(arguments: seq<string>) returns (output: string)
    ensures output == Echoed(arguments)
  {
    output := [];
    var i := 0;
    while i < |arguments|
      invariant 0 <= i <= |arguments|
      invariant output + Echoed(arguments[i..]) == Echoed(arguments)
    {
      assert arguments[i..][1..] == arguments[i + 1..];
      output := output + arguments[i] + " ";
      i := i + 1;
    }
    output := output + "\n";
  }

  /** Echoing words typed one space apart prints them back as typed, with a space and a newline after. */
  lemma {:induction false} EchoedJoin(words: seq<string>)
    ensures Echoed(words) == (if words == [] then "" else Join(words, ' ') + " ") + "\n"
    decreases |words|
  {
    if |words| == 1 {
      assert Echoed(words[1..]) == "\n";
    } else if words != [] {
      EchoedJoin(words[1..]);
    }
  }

  /** Echoing one or more words typed one space apart prints them back as typed, with a space and a newline after. */
  lemma EchoedWords(words: seq<string>)
    requires words != []
    ensures Echoed(words) == Join(words, ' ') + " \n"
  {
    EchoedJoin(words);
    assert " " + "\n" == " \n";
  }

  predicate AritiesFit<A>(commands: map<string, Command<A>>) {
    forall name :: name in commands ==> IsArity(commands[name].numberOfArguments)
  }

  /** What one console line leads to: nothing, a command run with its arguments, or an error message printed. */
  datatype Outcome<A> = Idle | Run(action: A, arguments: seq<string>) | Rejected(message: string)

  /** One turn of the `run` loop on `input`, up to running the command. */
  function Interpret<A>(input: string, commands: map<string, Command<A>>): (o: Outcome<A>)
    requires AritiesFit(commands)
    ensures o.Idle? <==> input == []
  {
    if input == [] then Idle
    else
      var pieces := Pieces(input, ' ');
      var command, arguments := pieces[0], pieces[1..];
      match ValidateInput(command, commands)
      case Some(e) => Rejected(e.message)
      case None =>
        match Call(commands[command], arguments)
        case Err(e) => Rejected(e.message)
        case Ok((action, args)) => Run(action, args)
  }

  lemma NestSpaces(command: string, a: string, b: string)
    ensures command + [' '] + a + [' ', ' '] + b + [' ']
            == command + [' '] + (a + [' '] + ([] + [' '] + (b + [' '] + [])))
  {
    assert [' ', ' '] == [' '] + [' '];
  }

  /** After the command: an argument, an empty one from the doubled space, then the last. */
  lemma PiecesAfterCommand(a: string, b: string)
    requires ' ' !in a && ' ' !in b && b != []
    ensures Pieces(a + [' '] + ([] + [' '] + (b + [' '] + [])), ' ') == [a, [], b]
  {
    PiecesOfWritten(b, ' ', []);
    assert Pieces([], ' ') == [];
    PiecesOfWritten([], ' ', b + [' '] + []);
    PiecesOfWritten(a, ' ', [] + [' '] + (b + [' '] + []));
  }

  /**
   * Spaces in a line: the command ends at the first, a doubled space gives an empty
   * argument, a single trailing space none.
   */
  lemma SplittingOnSpaces(command: string, a: string, b: string)
    requires ' ' !in command && ' ' !in a && ' ' !in b && b != []
    ensures Pieces(command + [' '] + a + [' ', ' '] + b + [' '], ' ') == [command, a, [], b]
  {
    NestSpaces(command, a, b);
    PiecesAfterCommand(a, b);
    PiecesOfWritten(command, ' ', a + [' '] + ([] + [' '] + (b + [' '] + [])));
  }

  /** A line that starts with a space names no command. */
  lemma LeadingSpaceRejected<A>(rest: string, commands: map<string, Command<A>>)
    requires AritiesFit(commands)
    ensures Interpret([' '] + rest, commands) == Rejected("No command entered!")
  {
    GetLineOfWritten([], ' ', rest);
    assert [' '] + rest == [] + [' '] + rest;
  }

  /** A line holding exactly a registered command and arguments without spaces runs that command with them. */
  lemma InterpretWords<A>(command: string, arguments: seq<string>, commands: map<string, Command<A>>)
    requires AritiesFit(commands) && command != [] && command in commands && ' ' !in command
    requires forall i :: 0 <= i < |arguments| ==> arguments[i] != [] && ' ' !in arguments[i]
    requires |arguments| == commands[command].numberOfArguments
             || commands[command].numberOfArguments == UNLIMITED_ARGUMENTS
    ensures Interpret(Join([command] + arguments, ' '), commands) == Run(commands[command].action, arguments)
  {
    SplitJoinedWords(command, arguments);
    assert Call(commands[command], arguments) == Ok((commands[command].action, arguments));
  }

  /** Words joined by single spaces split back into the command and its arguments. */
  lemma SplitJoinedWords(command: string, arguments: seq<string>)
    requires command != [] && ' ' !in command
    requires forall i :: 0 <= i < |arguments| ==> arguments[i] != [] && ' ' !in arguments[i]
    ensures var pieces := Pieces(Join([command] + arguments, ' '), ' ');
            Join([command] + arguments, ' ') != [] && pieces != [] && pieces[0] == command && pieces[1..] == arguments
  {
    var words := [command] + arguments;
    assert words[1..] == arguments;
    PiecesOfJoin(words);
  }

  /** Splitting words joined by single spaces gives the words back, provided the last is not empty. */
  lemma {:induction false} PiecesOfJoin(words: seq<string>)
    requires words != [] && words[|words| - 1] != []
    requires forall i :: 0 <= i < |words| ==> ' ' !in words[i]
    ensures Pieces(Join(words, ' '), ' ') == words
    decreases |words|
  {
    if |words| == 1 {
      PiecesOfNoDelimiter(words[0], ' ');
    } else {
      var tail := Join(words[1..], ' ');
      assert Join(words, ' ') == words[0] + [' '] + tail;
      PiecesOfWritten(words[0], ' ', tail);
      PiecesOfJoin(words[1..]);
      assert [words[0]] + words[1..] == words;
    }
  }
}
