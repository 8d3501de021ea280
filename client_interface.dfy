/**
 * The player's console (the client's Interface.cpp): the commands it registers and
 * what each does to the console's state.  Connecting and starting the game go
 * through the network and are not modelled beyond the flags they set.
 */
module ClientInterface {
  import opened Wrappers
  import opened Command
  import opened Console
  import opened LineIo
  import Client

  datatype Action = Exit | Echo | SetUser | Connect

  /** `setupCommands`: exit takes no argument, echo any number, setuser one, connect none. */
  function Commands(): (commands: map<string, Command<Action>>)
    ensures AritiesFit(commands)
  {
    map["exit" := Command(Action.Exit, "exit", 0), "echo" := Command(Echo, "echo", UNLIMITED_ARGUMENTS),
        "setuser" := Command(SetUser, "setuser", 1), "connect" := Command(Connect, "connect", 0)]
  }

  class Interface {
    const client: Client.Client
    var running: bool
    var connected: bool
    var commands: map<string, Command<Action>>

    predicate Valid()
      reads this
    {
      commands == Commands()
    }

    /** A new console is not connected and has its commands registered. */
    constructor (client: Client.Client)
      ensures this.client == client && !connected && Valid()
    {
      this.client := client;
      connected := false;
      commands := map[];
      new;
      SetupCommands();
    }

    /** `setupCommands`: registers the four commands of the player's console. */
    method SetupCommands()
      modifies this`commands
      ensures commands == old(commands) + Commands()
    {
      commands := commands["exit" := Command(Action.Exit, "exit", 0)];
      commands := commands["echo" := Command(Echo, "echo", UNLIMITED_ARGUMENTS)];
      commands := commands["setuser" := Command(SetUser, "setuser", 1)];
      commands := commands["connect" := Command(Connect, "connect", 0)];
    }

    /** `exit`: the input loop ends. */
    method Exit(arguments: seq<string>)
      modifies this`running
      ensures !running
    {
      running := false;
    }

    /** `setUsername`: the first argument becomes the player's username. */
    method SetUsername(arguments: seq<string>)
      requires |arguments| >= 1
      modifies client`username
      ensures client.username == arguments[0]
    {
      client.SetUsername(arguments[0]);
    }

    /**
     * `connectToServer`: refused when already connected; otherwise the console is
     * connected and its input loop ends while the game runs.
     */
    method ConnectToServer(arguments: seq<string>) returns (error: Option<InterfaceException>)
      modifies this`connected, this`running
      ensures old(connected) ==> error == Some(InterfaceException("Already connected"))
                                 && connected && running == old(running)
      ensures !old(connected) ==> error.None? && connected && !running
    {
      if connected {
        return Some(InterfaceException("Already connected"));
      }
      connected := true;
      running := false;
      error := None;
    }

    /**
     * One turn of `run` on a line read from the console: an empty line is skipped;
     * otherwise the line is parsed, validated and its command called.  The result is
     * what the turn prints: the echoed arguments, or the message of an exception
     * thrown on the way.
     */
    method ProcessLine(input: string) returns (output: string)
      requires Valid()
      modifies this`running, this`connected, client`username
      ensures Valid()
      ensures output == Printed(Interpret(input, Commands()), old(connected))
      ensures running == (if Interpret(input, Commands()) == Run(Action.Exit, [])
                          || (Interpret(input, Commands()) == Run(Connect, []) && !old(connected))
                          then false else old(running))
      ensures connected == (old(connected) || Interpret(input, Commands()) == Run(Connect, []))
      ensures client.username == (if Interpret(input, Commands()).Run? && Interpret(input, Commands()).action == SetUser
                                  then Interpret(input, Commands()).arguments[0] else old(client.username))
    {
      output := [];
      if |input| == 0 {
        return;
      }
      var command, arguments := ParseInput(input);
      var invalid := ValidateInput(command, commands);
      if invalid.Some? {
        return invalid.value.message + "\n";
      }
      var call := Call(commands[command], arguments);
      if call.Err? {
        return call.error.message + "\n";
      }
      output := Perform(call.value.0, arguments);
    }

    /** `execute` on a command that accepted its arguments: the command's own method runs. */
    method Perform(action: Action, arguments: seq<string>) returns (output: string)
      requires Valid()
      requires action == SetUser ==> |arguments| == 1
      modifies this`running, this`connected, client`username
      ensures Valid()
      ensures output == Printed(Run(action, arguments), old(connected))
      ensures running == (if action == Action.Exit || (action == Connect && !old(connected))
                          then false else old(running))
      ensures connected == (old(connected) || action == Connect)
      ensures client.username == (if action == SetUser then arguments[0] else old(client.username))
    {
      output := [];
      match action {
        case Exit => Exit(arguments);
        case Echo => output := Console.Echo(arguments);
        case SetUser => SetUsername(arguments);
        case Connect =>
          var error := ConnectToServer(arguments);
          if error.Some? {
            output := error.value.message + "\n";
          }
      }
    }
  }

  /** What a turn prints, given its outcome and whether the console was already connected. */
  function Printed(outcome: Outcome<Action>, connected: bool): string {
    match outcome
    case Idle => []
    case Rejected(message) => message + "\n"
    case Run(action, arguments) =>
      if action == Echo then Echoed(arguments)
      else if action == Connect && connected then "Already connected\n"
      else []
  }

  /** Every registered command runs when typed with the right number of arguments. */
  lemma RegisteredCommandsRun()
    ensures Interpret("exit", Commands()) == Run(Action.Exit, [])
    ensures Interpret("connect", Commands()) == Run(Connect, [])
  {
    InterpretWords("exit", [], Commands());
    InterpretWords("connect", [], Commands());
    assert Join(["exit"], ' ') == "exit";
    assert Join(["connect"], ' ') == "connect";
  }

  /** `setuser` followed by one word runs with that word as the username. */
  lemma SetUserArity(name: string)
    requires name != [] && ' ' !in name
    ensures Interpret(Join(["setuser", name], ' '), Commands()) == Run(SetUser, [name])
  {
    InterpretWords("setuser", [name], Commands());
  }

  /** `echo` followed by words prints those words back, each followed by a space. */
  lemma EchoLine(words: seq<string>, connected: bool)
    requires words != [] && forall i :: 0 <= i < |words| ==> words[i] != [] && ' ' !in words[i]
    ensures Printed(Interpret(Join(["echo"] + words, ' '), Commands()), connected)
            == Join(words, ' ') + " \n"
  {
    EchoRuns(words);
    EchoedWords(words);
  }

  lemma EchoRuns(words: seq<string>)
    requires forall i :: 0 <= i < |words| ==> words[i] != [] && ' ' !in words[i]
    ensures Interpret(Join(["echo"] + words, ' '), Commands()) == Run(Echo, words)
  {
    var commands := Commands();
    var echo := "echo";
    assert ' ' !in echo;
    assert echo in commands && commands[echo].numberOfArguments == UNLIMITED_ARGUMENTS;
    InterpretWords(echo, words, commands);
  }
}
