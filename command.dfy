/**
 * A console command (Command.cpp): the action it runs, its name and the number of
 * arguments it takes, where -1 means any number.
 */
module Command {
  import opened Wrappers

  const UNLIMITED_ARGUMENTS: int := -1

  /** `size_t`'s range: `arguments.size()` is compared with the arity converted to it. */
  const SIZE_RANGE: int := 0x1_0000_0000_0000_0000

  datatype Command<A> = Command(action: A, commandName: string, numberOfArguments: int)

  datatype CommandException = CommandException(message: string)

  /** The arity as the comparison sees it: a negative `int` becomes a huge `size_t`. */
  function AsSize(n: int): nat
    requires -SIZE_RANGE < n < SIZE_RANGE
  {
    if n < 0 then n + SIZE_RANGE else n
  }

  predicate IsArity(n: int) {
    -0x8000_0000 <= n <= 0x7FFF_FFFF
  }

  /**
   * `operator()`: throws when the argument count differs from the arity and the arity
   * is not unlimited; otherwise runs the action, once, with the same arguments.
   */
  function Call<A>(command: Command<A>, arguments: seq<string>): (r: Result<(A, seq<string>), CommandException>)
    requires IsArity(command.numberOfArguments)
    ensures r.Err? ==> r.error == CommandException("Invalid number of arguments!")
    ensures r.Ok? ==> r.value == (command.action, arguments)
  {
    if |arguments| != AsSize(command.numberOfArguments) && command.numberOfArguments != UNLIMITED_ARGUMENTS
    then Err(CommandException("Invalid number of arguments!"))
    else Ok((command.action, arguments))
  }

  /** An unlimited command accepts any number of arguments. */
  lemma UnlimitedAcceptsAll<A>(command: Command<A>, arguments: seq<string>)
    requires command.numberOfArguments == UNLIMITED_ARGUMENTS
    ensures Call(command, arguments).Ok?
  {
  }

  /** A command with a fixed arity runs exactly when given that many arguments. */
  lemma FixedArity<A>(command: Command<A>, arguments: seq<string>)
    requires 0 <= command.numberOfArguments <= 0x7FFF_FFFF
    ensures Call(command, arguments).Ok? <==> |arguments| == command.numberOfArguments
  {
  }

  /** Any other negative arity is compared as a huge count, which no argument list has. */
  lemma OtherNegativeArityRejects<A>(command: Command<A>, arguments: seq<string>)
    requires IsArity(command.numberOfArguments) && command.numberOfArguments < -1
    requires |arguments| < 0x8000_0000
    ensures Call(command, arguments).Err?
  {
  }
}
