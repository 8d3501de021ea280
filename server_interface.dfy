/**
 * The server's console (the server's Interface.cpp): the commands it registers and the
 * flag that keeps its input loop going.  Starting the server runs the whole game over
 * the network and is not modelled beyond the flag it clears.
 */
module ServerInterface {
  import opened Wrappers
  import opened Command
  import opened Console
  import opened LineIo

  datatype Action = Exit | Echo | Start

  /** `setupCommands`: exit and start take no argument, echo any number. */
  function Commands(): (commands: map<string, Command<Action>>)
    ensures AritiesFit(commands)
  {
    map["exit" := Command(Action.Exit, "exit", 0), "echo" := Command(Echo, "echo", UNLIMITED_ARGUMENTS),
        "start" := Command(Action.Start, "start", 0)]
  }

  class Interface {
    var takingInput: bool
    var commands: map<string, Command<Action>>

    predicate Valid()
      reads this
    {
      commands == Commands()
    }

    /** A new console has its commands registered. */
    constructor ()
      ensures Valid()
    {
      commands := map[];
      new;
      SetupCommands();
    }

    /** `setupCommands`: registers the three commands of the server's console. */
    method SetupCommands()
      modifies this`commands
      ensures commands == old(commands) + Commands()
    {
      commands := commands["exit" := Command(Action.Exit, "exit", 0)];
      commands := commands["echo" := Command(Echo, "echo", UNLIMITED_ARGUMENTS)];
      commands := commands["start" := Command(Action.Start, "start", 0)];
    }

    /** `exit`: the input loop ends. */
    method Exit(arguments: seq<string>)
      modifies this`takingInput
      ensures !takingInput
    {
      takingInput := false;
    }

    /** `startServer`: once the game is over, the input loop ends. */
    method StartServer(arguments: seq<string>)
      modifies this`takingInput
      ensures !takingInput
    {
      takingInput := false;
    }

    /**
     * One turn of `run` on a line read from the console: an empty line is skipped;
     * otherwise the line is parsed, validated and its command called.  The result is
     * what the turn prints: the echoed arguments, or the message of an exception
     * thrown on the way.
     */
    method ProcessLine(input: string) returns (output: string)
      requires Valid()
      modifies this`takingInput
      ensures Valid()
      ensures output == Printed(Interpret(input, Commands()))
      ensures takingInput == (if Interpret(input, Commands()) == Run(Action.Exit, [])
                              || Interpret(input, Commands()) == Run(Action.Start, [])
                              then false else old(takingInput))
    {
      output := [];
      if |input| == 0 {
        return;
      }
      var command, arguments := ParseInput(input);
      var invalid := ValidateInput(command, commands);
      if invalid.Some? {
        return invalid.value.message + "\n";
      }
      var call := Call(commands[command], arguments);
      if call.Err? {
        return call.error.message + "\n";
      }
      match call.value.0 {
        case Exit => Exit(arguments);
        case Echo => output := Console.Echo(arguments);
        case Start => StartServer(arguments);
      }
    }
  }

  /** What a turn prints, given its outcome. */
  function Printed(outcome: Outcome<Action>): string {
    match outcome
    case Idle => []
    case Rejected(message) => message + "\n"
    case Run(action, arguments) => if action == Echo then Echoed(arguments) else []
  }

  /** A command word alone on its line runs that command without arguments. */
  lemma BareCommandLine(command: string)
    requires command in Commands() && command != [] && ' ' !in command
    requires Commands()[command].numberOfArguments == 0
    ensures Interpret(command, Commands()) == Run(Commands()[command].action, [])
  {
    InterpretWords(command, [], Commands());
    assert Join([command], ' ') == command;
  }

  /** `start` followed by a word is refused: the command takes no argument. */
  lemma StartWithArgument(word: string)
    requires word != [] && ' ' !in word
    ensures Interpret(Join(["start", word], ' '), Commands()) == Rejected("Invalid number of arguments!")
  {
    SplitJoinedWords("start", [word]);
  }

  /** An empty line does nothing; `exit` and `start` are run; `start` with an argument is refused. */
  lemma ServerLines(word: string)
    requires word != [] && ' ' !in word
    ensures Interpret([], Commands()).Idle?
    ensures Interpret("exit", Commands()) == Run(Action.Exit, [])
    ensures Interpret("start", Commands()) == Run(Action.Start, [])
    ensures Interpret(Join(["start", word], ' '), Commands()) == Rejected("Invalid number of arguments!")
  {
    BareCommandLine("exit");
    BareCommandLine("start");
    StartWithArgument(word);
  }
}
