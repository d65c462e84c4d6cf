/**
 * The cloneable builder for a child process: a program and an argument
 * vector that grows by appending, turned into a process configuration
 * whose stdin is piped and whose stdout and stderr are discarded.
 */
module Commands {
  import opened Bytes

  /** What a child process's standard stream is connected to. */
  datatype Stdio = Inherit | Piped | Null

  /**
   * The configuration held by a `std::process::Command`: the program, its
   * arguments in order, and the three standard streams.
   */
  datatype ProcessCommand = ProcessCommand(
    program: seq<byte>,
    args: seq<seq<byte>>,
    stdin: Stdio,
    stdout: Stdio,
    stderr: Stdio)
  {
    /** `Command::args`: appends to the argument list. */
    function Args(xs: seq<seq<byte>>): (c: ProcessCommand)
      ensures c.args == args + xs
      ensures c.program == program && c.stdin == stdin && c.stdout == stdout && c.stderr == stderr
    {
      this.(args := args + xs)
    }

    /** `Command::stdin`, `stdout` and `stderr`: set one stream. */
    function Stdin(s: Stdio): ProcessCommand {
      this.(stdin := s)
    }

    function Stdout(s: Stdio): ProcessCommand {
      this.(stdout := s)
    }

    function Stderr(s: Stdio): ProcessCommand {
      this.(stderr := s)
    }
  }

  /** `std::process::Command::new`: no arguments, streams inherited. */
  function NewProcess(program: seq<byte>): (c: ProcessCommand)
    ensures c.program == program && c.args == []
    ensures c.stdin == Inherit && c.stdout == Inherit && c.stderr == Inherit
  {
    ProcessCommand(program, [], Inherit, Inherit, Inherit)
  }

  class Command {
    var program: seq<byte>
    var args: seq<seq<byte>>

    /** `Command::new`: the given program and no arguments. */
    constructor (program: seq<byte>)
      ensures this.program == program && args == []
    {
      this.program := program;
      args := [];
    }

    /** `with_args`: the new arguments go after the old ones; the program stays. */
    method WithArgs(xs: seq<seq<byte>>)
      modifies this
      ensures args == old(args) + xs
      ensures |old(args)| <= |args| && args[..|old(args)|] == old(args)
      ensures xs == [] ==> args == old(args)
      ensures program == old(program)
    {
      args := args + xs;
      assert args[..|old(args)|] == old(args);
    }

    /** `Clone`: a new builder with the same program and arguments. */
    method Clone() returns (c: Command)
      ensures fresh(c) && c.program == program && c.args == args
    {
      c := new Command(program);
      c.args := args;
    }

    /**
     * `command.clone().with_args(xs)`, as each trial does it: the copy gets
     * the extra arguments and this builder is left as it was.
     */
    method CloneWithArgs(xs: seq<seq<byte>>) returns (c: Command)
      ensures fresh(c) && c.program == program && c.args == args + xs
      ensures unchanged(this)
    {
      c := Clone();
      c.WithArgs(xs);
    }

    /** `build`: exactly these arguments in order, stdin piped, stdout and stderr to null. */
    method Build() returns (p: ProcessCommand)
      ensures p.program == program && p.args == args
      ensures p.stdin == Piped && p.stdout == Null && p.stderr == Null
    {
      p := NewProcess(program);
      p := p.Args(args).Stdin(Piped).Stdout(Null).Stderr(Null);
    }
  }
}
