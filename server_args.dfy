/** parsePortArg of the example server. */
module ServerArgs {
  import opened Ascii
  import opened CommandLine

  /** The port of the first argument that is a `--port=` whose number parses. */
  function FirstPort(args: seq<string>): (r: Option<nat>)
    ensures r.Some? ==> r.value < UShortLimit
  {
    if args == [] then None
    else if PortValue(args[0]).Some? then PortValue(args[0])
    else FirstPort(args[1..])
  }

  /**
   * Scans the arguments in order and returns at the first `--port=` whose
   * number parses; anything else is skipped (the server reports unknown
   * arguments on stderr and carries on).
   */
  method ParsePortArg(argv: seq<string>) returns (port: Option<nat>)
    ensures port == FirstPort(Arguments(argv))
  {
    var i := 1;
    while i < |argv|
      invariant 1 <= i
      invariant i <= |argv| ==> FirstPort(Arguments(argv)) == FirstPort(argv[i..])
      invariant i > |argv| ==> argv == []
    {
      var arg := argv[i];
      assert argv[i..][1..] == argv[i + 1..];
      if PortArg <= arg {
        var parsed := FromChars(arg[|PortArg|..]);
        if parsed.Some? {
          return parsed;
        }
      }
      i := i + 1;
    }
    port := None;
  }

  /** The first parsing `--port=` decides, whatever follows it. */
  lemma {:induction false} FirstPortIsFirst(args: seq<string>, i: nat)
    requires i < |args| && PortValue(args[i]).Some?
    requires forall j :: 0 <= j < i ==> PortValue(args[j]) == None
    ensures FirstPort(args) == PortValue(args[i])
  {
    if i > 0 {
      assert forall j :: 0 <= j < i - 1 ==> args[1..][j] == args[j + 1];
      FirstPortIsFirst(args[1..], i - 1);
    }
  }

  /** A result always comes from some `--port=` argument, with none parsing before it. */
  lemma {:induction false} FirstPortFound(args: seq<string>)
    requires FirstPort(args).Some?
    ensures exists i :: 0 <= i < |args| && PortValue(args[i]) == FirstPort(args) &&
                        forall j :: 0 <= j < i ==> PortValue(args[j]) == None
  {
    if PortValue(args[0]).None? {
      FirstPortFound(args[1..]);
      var i :| 0 <= i < |args[1..]| && PortValue(args[1..][i]) == FirstPort(args[1..]) &&
               forall j :: 0 <= j < i ==> PortValue(args[1..][j]) == None;
      assert PortValue(args[i + 1]) == FirstPort(args);
      assert forall j :: 0 <= j < i + 1 ==> PortValue(args[j]) == None by {
        forall j | 0 <= j < i + 1
          ensures PortValue(args[j]) == None
        {
          if j > 0 { assert args[j] == args[1..][j - 1]; }
        }
      }
    } else {
      assert PortValue(args[0]) == FirstPort(args);
    }
  }

  /** No port exactly when no argument is a `--port=` whose number parses. */
  lemma {:induction false} FirstPortNone(args: seq<string>)
    ensures FirstPort(args) == None <==> forall j :: 0 <= j < |args| ==> PortValue(args[j]) == None
  {
    if FirstPort(args).Some? {
      FirstPortFound(args);
    } else if args != [] {
      FirstPortNone(args[1..]);
      assert forall j :: 1 <= j < |args| ==> args[j] == args[1..][j - 1];
    }
  }
}
