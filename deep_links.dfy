/** Deep links reaching the application on its command line: each argument after the
    program path that parses as a telnet URL becomes an `Open` action, and the actions are
    queued until the front end drains the queue. */
module DeepLinks {
  import opened TelnetUrl

  /** What the front end is asked to do. */
  datatype TelnetAction = Open(request: TelnetLaunchRequest)

  /** The command-line arguments without the program path (`skip(1)`); an empty
      argument vector has nothing to skip. */
  function SkipProgramPath(argv: seq<string>): (args: seq<string>)
    ensures argv == [] ==> args == []
    ensures argv != [] ==> |args| == |argv| - 1 && forall k :: 0 <= k < |args| ==> args[k] == argv[k + 1]
  {
    if argv == [] then [] else argv[1..]
  }

  /** The action one argument contributes: an `Open` of its request, or nothing when it
      does not parse. */
  function ActionFor(parse: UrlParser, arg: string): (r: seq<TelnetAction>)
    ensures |r| <= 1
    ensures r == [] <==> ParseTelnetUrl(parse, arg) == None
    ensures r != [] ==> Some(r[0].request) == ParseTelnetUrl(parse, arg)
  {
    match ParseTelnetUrl(parse, arg)
    case None => []
    case Some(req) => [Open(req)]
  }

  /** The actions a list of arguments yields, in argument order; there are never more
      actions than arguments. */
  function OpenActions(parse: UrlParser, args: seq<string>): (r: seq<TelnetAction>)
    ensures |r| <= |args|
  {
    if args == [] then []
    else
      var init := args[..|args| - 1];
      OpenActions(parse, init) + ActionFor(parse, args[|args| - 1])
  }

  /** Collecting over two argument lists one after the other gives the first list's
      actions followed by the second's. */
  lemma {:induction false} OpenActionsAppend(parse: UrlParser, a: seq<string>, b: seq<string>)
    ensures OpenActions(parse, a + b) == OpenActions(parse, a) + OpenActions(parse, b)
    decreases |b|
  {
    if b == [] {
      assert a + b == a;
    } else {
      var init := b[..|b| - 1];
      assert (a + b)[..|a + b| - 1] == a + init;
      assert (a + b)[|a + b| - 1] == b[|b| - 1];
      OpenActionsAppend(parse, a, init);
    }
  }

  /** Every argument that parses contributes its `Open` action. */
  lemma {:induction false} OpenActionsComplete(parse: UrlParser, args: seq<string>, k: int)
    requires 0 <= k < |args| && ParseTelnetUrl(parse, args[k]).Some?
    ensures Open(ParseTelnetUrl(parse, args[k]).value) in OpenActions(parse, args)
    decreases |args|
  {
    var init := args[..|args| - 1];
    if k < |args| - 1 {
      assert args[k] == init[k];
      OpenActionsComplete(parse, init, k);
    }
  }

  /** All arguments of `args` yield a request. */
  predicate AllParse(parse: UrlParser, args: seq<string>) {
    forall k :: 0 <= k < |args| ==> ParseTelnetUrl(parse, args[k]).Some?
  }

  /** Every action is the request of some argument. */
  lemma {:induction false} OpenActionsSound(parse: UrlParser, args: seq<string>, j: int)
    requires 0 <= j < |OpenActions(parse, args)|
    ensures exists k :: 0 <= k < |args| && ParseTelnetUrl(parse, args[k]) == Some(OpenActions(parse, args)[j].request)
    decreases |args|
  {
    var init := args[..|args| - 1];
    var r := OpenActions(parse, args);
    if j < |OpenActions(parse, init)| {
      OpenActionsSound(parse, init, j);
      var k :| 0 <= k < |init| && ParseTelnetUrl(parse, init[k]) == Some(OpenActions(parse, init)[j].request);
      assert init[k] == args[k];
    } else {
      assert ParseTelnetUrl(parse, args[|args| - 1]) == Some(r[j].request);
    }
  }

  /** Every argument parses exactly when all but the last do and the last does too. */
  lemma AllParseSnoc(parse: UrlParser, args: seq<string>)
    requires args != []
    ensures AllParse(parse, args) <==>
      AllParse(parse, args[..|args| - 1]) && ParseTelnetUrl(parse, args[|args| - 1]).Some?
  {
  }

  /** Exactly the arguments that parse contribute an action: there are as many actions as
      arguments if and only if every argument parses. */
  lemma {:induction false} OpenActionsAllParse(parse: UrlParser, args: seq<string>)
    ensures |OpenActions(parse, args)| == |args| <==> AllParse(parse, args)
    decreases |args|
  {
    if args != [] {
      var init := args[..|args| - 1];
      OpenActionsAllParse(parse, init);
      AllParseSnoc(parse, args);
      assert |OpenActions(parse, args)| == |OpenActions(parse, init)| + |ActionFor(parse, args[|args| - 1])|;
    }
  }

  /** The loop that turns the command line into actions: the program path is skipped and
      each later argument that parses yields one `Open` action, in argument order. */
  method CollectActions(parse: UrlParser, argv: seq<string>) returns (actions: seq<TelnetAction>)
    ensures actions == OpenActions(parse, SkipProgramPath(argv))
    ensures |actions| <= |SkipProgramPath(argv)|
  {
    var args := SkipProgramPath(argv);
    actions := [];
    for i := 0 to |args|
      invariant actions == OpenActions(parse, args[..i])
    {
      assert args[..i + 1][..i] == args[..i];
      match ParseTelnetUrl(parse, args[i]) {
        case Some(req) => actions := actions + [Open(req)];
        case None =>
      }
    }
    assert args[..|args|] == args;
  }

  /** The queue of actions waiting for the front end. */
  class PendingActions {
    var actions: seq<TelnetAction>

    /** A new queue is empty. */
    constructor ()
      ensures actions == []
    {
      actions := [];
    }

    /** Appends a batch after what is already queued. */
    method Extend(batch: seq<TelnetAction>)
      modifies this
      ensures actions == old(actions) + batch
    {
      actions := actions + batch;
    }
  }

  /** Hands the front end everything queued, in order, and leaves the queue empty, so
      that a second call in a row returns nothing. */
  method ConsumePendingTelnetActions(state: PendingActions) returns (actions: seq<TelnetAction>)
    modifies state
    ensures actions == old(state.actions)
    ensures state.actions == []
  {
    actions := state.actions;
    state.actions := [];
  }

  /** A later launch of the program passes its command line to the running instance: its
      actions are queued and, when there are any, also emitted to the front end. The
      result is the emitted payload, `None` when nothing is emitted. */
  method OnSecondInstance(state: PendingActions, parse: UrlParser, argv: seq<string>)
    returns (emitted: Option<seq<TelnetAction>>)
    modifies state
    ensures state.actions == old(state.actions) + OpenActions(parse, SkipProgramPath(argv))
    ensures OpenActions(parse, SkipProgramPath(argv)) == [] ==> unchanged(state) && emitted == None
    ensures OpenActions(parse, SkipProgramPath(argv)) != [] ==>
      emitted == Some(OpenActions(parse, SkipProgramPath(argv)))
  {
    var newActions := CollectActions(parse, argv);
    emitted := None;
    if newActions != [] {
      state.Extend(newActions);
      emitted := Some(newActions);
    }
  }

  /** At start-up the program's own command line is queued. */
  method Setup(state: PendingActions, parse: UrlParser, argv: seq<string>)
    modifies state
    ensures state.actions == old(state.actions) + OpenActions(parse, SkipProgramPath(argv))
    ensures OpenActions(parse, SkipProgramPath(argv)) == [] ==> unchanged(state)
  {
    var initialActions := CollectActions(parse, argv);
    if initialActions != [] {
      state.Extend(initialActions);
    }
  }
}
