/** parseArgs of the example client and the check `main` makes of its result. */
module ClientArgs {
  import opened Ascii
  import opened CommandLine

  const ExeArg: string := "--exe="

  /** The parsed command line: a port to connect to, or a server to launch with its arguments. */
  datatype Args = Args(port: Option<nat>, executable: string, executableArgs: seq<string>)

  const NoArgs := Args(None, [], [])

  /** What one argument does to the parsed command line. */
  function Step(args: Args, arg: string): Args
  {
    if args.executable != [] then args.(executableArgs := args.executableArgs + [arg])
    else if PortArg <= arg then
      (var port := FromChars(arg[|PortArg|..]); if port.Some? then args.(port := port) else args)
    else if ExeArg <= arg then
      (var executable := arg[|ExeArg|..]; if executable != [] then args.(executable := executable) else args)
    else args
  }

  /** The parsed command line after the arguments `args`, taken in order. */
  function ArgsAfter(args: seq<string>): (r: Args)
    ensures r.port.Some? ==> r.port.value < UShortLimit
  {
    if args == [] then NoArgs else Step(ArgsAfter(args[..|args| - 1]), args[|args| - 1])
  }

  /**
   * Reads `argv` after the program name, updating the fields of the result
   * one argument at a time. Invalid ports and unknown arguments are
   * reported on stderr and otherwise ignored.
   */
  method ParseArgs(argv: seq<string>) returns (args: Args)
    ensures args == ArgsAfter(Arguments(argv))
  {
    args := NoArgs;
    if argv == [] {
      return;
    }
    var i := 1;
    while i < |argv|
      invariant 1 <= i <= |argv|
      invariant args == ArgsAfter(argv[1..i])
    {
      var arg := argv[i];
      assert argv[1..i + 1][..i - 1] == argv[1..i];
      if args.executable != [] {
        args := args.(executableArgs := args.executableArgs + [arg]);
      } else if PortArg <= arg {
        var port := FromChars(arg[|PortArg|..]);
        if port.Some? {
          args := args.(port := port);
        }
      } else if ExeArg <= arg {
        var executable := arg[|ExeArg|..];
        if executable != [] {
          args := args.(executable := executable);
        }
      }
      i := i + 1;
    }
    assert argv[1..i] == Arguments(argv);
  }

  /** An argument that names the server executable: `--exe=` with something after it. */
  predicate IsExeArg(arg: string) { ExeArg <= arg && |arg| > |ExeArg| }

  /** The port of the last `--port=` whose number parses. */
  function LastPort(args: seq<string>): (r: Option<nat>)
    ensures r.Some? ==> r.value < UShortLimit
  {
    if args == [] then None
    else if PortValue(args[|args| - 1]).Some? then PortValue(args[|args| - 1])
    else LastPort(args[..|args| - 1])
  }

  /** No port exactly when no argument is a `--port=` whose number parses. */
  lemma {:induction false} LastPortNone(args: seq<string>)
    ensures LastPort(args) == None <==> forall j :: 0 <= j < |args| ==> PortValue(args[j]) == None
  {
    if args != [] {
      var init := args[..|args| - 1];
      LastPortNone(init);
      assert forall j :: 0 <= j < |init| ==> init[j] == args[j];
    }
  }

  /**
   * Before any `--exe=` with a name, later valid ports override earlier ones
   * and nothing else is recorded.
   */
  lemma {:induction false} ArgsBeforeExe(args: seq<string>)
    requires forall j :: 0 <= j < |args| ==> !IsExeArg(args[j])
    ensures ArgsAfter(args) == Args(LastPort(args), [], [])
  {
    if args != [] {
      var init := args[..|args| - 1];
      assert forall j :: 0 <= j < |init| ==> init[j] == args[j];
      ArgsBeforeExe(init);
      assert PortArg <= args[|args| - 1] ==> !(ExeArg <= args[|args| - 1]) by {
        if PortArg <= args[|args| - 1] { assert args[|args| - 1][2] == 'p'; }
      }
    }
  }

  /** Once the executable is named, every later argument is forwarded unchanged. */
  lemma {:induction false} ArgsForwarded(args: seq<string>, k: nat, n: nat)
    requires k < n <= |args| && IsExeArg(args[k])
    requires forall j :: 0 <= j < k ==> !IsExeArg(args[j])
    ensures ArgsAfter(args[..n]) == Args(LastPort(args[..k]), args[k][|ExeArg|..], args[k + 1..n])
  {
    if n == k + 1 {
      var init := args[..k];
      assert args[..n][..|args[..n]| - 1] == init;
      assert forall j :: 0 <= j < |init| ==> init[j] == args[j];
      ArgsBeforeExe(init);
      assert !(PortArg <= args[k]) by { assert args[k][2] == 'e'; }
    } else {
      ArgsForwarded(args, k, n - 1);
      assert args[..n][..|args[..n]| - 1] == args[..n - 1];
      assert args[k + 1..n] == args[k + 1..n - 1] + [args[n - 1]];
    }
  }

  /**
   * The parsed command line in terms of the first argument naming an
   * executable: the last valid port before it, the name, and everything after
   * it verbatim.
   */
  lemma ArgsFromExe(args: seq<string>, k: nat)
    requires k < |args| && IsExeArg(args[k])
    requires forall j :: 0 <= j < k ==> !IsExeArg(args[j])
    ensures ArgsAfter(args) == Args(LastPort(args[..k]), args[k][|ExeArg|..], args[k + 1..])
  {
    ArgsForwarded(args, k, |args|);
    assert args[..|args|] == args;
  }

  /** What the client does with its parsed command line. */
  datatype Launch = Usage | Connect(port: nat) | Spawn(executable: string, arguments: seq<string>)

  /**
   * The check in `main`: without a port and without an executable the usage
   * text is printed and the client exits with status 1; a port wins over an
   * executable.
   */
  function Decide(args: Args): (r: Launch)
    ensures r.Usage? <==> args.port.None? && args.executable == []
    ensures r.Connect? <==> args.port.Some?
    ensures r.Connect? ==> r.port == args.port.value
    ensures r.Spawn? ==> r.executable == args.executable && r.executable != []
    ensures r.Spawn? ==> r.arguments == args.executableArgs
  {
    if args.port.None? && args.executable == [] then Usage
    else if args.port.Some? then Connect(args.port.value)
    else Spawn(args.executable, args.executableArgs)
  }

  /**
   * The client gives up exactly when no argument names an executable and
   * no `--port=` argument parses.
   */
  lemma UsageIff(args: seq<string>)
    ensures Decide(ArgsAfter(args)).Usage? <==>
              forall j :: 0 <= j < |args| ==> !IsExeArg(args[j]) && PortValue(args[j]) == None
  {
    if exists k :: 0 <= k < |args| && IsExeArg(args[k]) {
      var k := FirstExe(args);
      ArgsFromExe(args, k);
    } else {
      ArgsBeforeExe(args);
      LastPortNone(args);
    }
  }

  /** The index of the first argument naming an executable, when there is one. */
  lemma FirstExe(args: seq<string>) returns (k: nat)
    requires exists k :: 0 <= k < |args| && IsExeArg(args[k])
    ensures k < |args| && IsExeArg(args[k])
    ensures forall j :: 0 <= j < k ==> !IsExeArg(args[j])
  {
    k := 0;
    while !IsExeArg(args[k])
      invariant k < |args|
      invariant forall j :: 0 <= j < k ==> !IsExeArg(args[j])
      invariant exists m :: k <= m < |args| && IsExeArg(args[m])
      decreases |args| - k
    {
      k := k + 1;
    }
  }
}
