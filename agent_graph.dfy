/**
 * The dialogue routing graph: five responder nodes, the fixed edges between
 * them, the router that runs after the evaluator, and fuelled runs of the
 * resulting state machine.
 */
module AgentGraph {
  import opened Optional
  import History

  /** The five registered responder nodes. */
  datatype Node = Arbiter | Elenchus | Aporia | Maieutics | Dialectic

  /** The content nodes, each of which produces dialogue and hands over to the evaluator. */
  predicate IsContent(n: Node) {
    n == Elenchus || n == Aporia || n == Maieutics
  }

  /** The name of the graph's terminal pseudo-node. */
  const END: string := "__end__"

  /** The node every run starts at. */
  const Entry: Node := Arbiter

  /** The name each node is registered under. */
  function Name(n: Node): string {
    match n
    case Arbiter => "arbiter"
    case Elenchus => "elenchus"
    case Aporia => "aporia"
    case Maieutics => "maieutics"
    case Dialectic => "dialectic"
  }

  /** The node table built by registering the five nodes. */
  const Registry: map<string, Node> :=
    map["arbiter" := Arbiter, "elenchus" := Elenchus, "aporia" := Aporia,
        "maieutics" := Maieutics, "dialectic" := Dialectic]

  /**
   * The session state threaded through a run. `mastery_score` is carried
   * but never read by the routing; `mastery_reached` is not a declared
   * field, so it may be absent.
   */
  datatype State = State(
    messages: seq<History.Message>,
    nextAgent: Option<string>,
    masteryScore: Option<real>,
    masteryReached: Option<bool>)

  /** What one node returns: new messages to append, and keys to overwrite. */
  datatype Update = Update(
    newMessages: seq<History.Message>,
    nextAgent: Option<string>,
    masteryScore: Option<real>,
    masteryReached: Option<bool>)

  /** Merges a node's update into the state: messages are concatenated,
      every other key present in the update replaces the old value. */
  function Merge(s: State, u: Update): (t: State)
    ensures |t.messages| == |s.messages| + |u.newMessages|
    ensures t.messages[..|s.messages|] == s.messages && t.messages[|s.messages|..] == u.newMessages
    ensures t.nextAgent == (if u.nextAgent.Some? then u.nextAgent else s.nextAgent)
    ensures t.masteryScore == (if u.masteryScore.Some? then u.masteryScore else s.masteryScore)
    ensures t.masteryReached == (if u.masteryReached.Some? then u.masteryReached else s.masteryReached)
  {
    State(
      s.messages + u.newMessages,
      if u.nextAgent.Some? then u.nextAgent else s.nextAgent,
      if u.masteryScore.Some? then u.masteryScore else s.masteryScore,
      if u.masteryReached.Some? then u.masteryReached else s.masteryReached)
  }

  /** Why a run cannot continue. */
  datatype Fault =
    | MissingNextAgent          // the arbiter's edge reads a key that is not set
    | UnknownNode(name: string) // a destination that is neither a node nor the end

  /** Where an edge leads. */
  datatype Dest = Goto(node: Node) | Finish | Invalid(fault: Fault)

  /** Looks a destination name up, exactly as written. */
  function Resolve(name: string): (d: Dest)
    ensures d.Finish? <==> name == END
    ensures d.Goto? <==> name in Registry
    ensures d.Goto? ==> Name(d.node) == name
    ensures d.Invalid? ==> d.fault == UnknownNode(name)
  {
    if name == END then Finish
    else if name in Registry then Goto(Registry[name])
    else Invalid(UnknownNode(name))
  }

  /**
   * The router after the evaluator: the end when mastery has been reached,
   * the arbiter otherwise; an absent flag counts as not reached.
   */
  function RouteAfterDialectic(s: State): (name: string)
    ensures name == END <==> s.masteryReached == Some(true)
    ensures name != END ==> name == Name(Arbiter)
    ensures s.masteryReached.None? ==> name == Name(Arbiter)
  {
    var masteryReached := match s.masteryReached case Some(b) => b case None => false;
    if masteryReached then END else "arbiter"
  }

  /** The transition table: where control goes after node `n` has run in state `s`. */
  function Next(n: Node, s: State): (d: Dest)
    ensures IsContent(n) ==> d == Goto(Dialectic)
    ensures n == Dialectic ==> d == Goto(Arbiter) || d == Finish
    ensures n == Dialectic ==> (d == Finish <==> s.masteryReached == Some(true))
    ensures n == Arbiter && s.nextAgent.None? ==> d == Invalid(MissingNextAgent)
    ensures n == Arbiter && s.nextAgent.Some? ==> d == Resolve(s.nextAgent.value)
    ensures d.Invalid? ==> n == Arbiter
  {
    match n
    case Arbiter =>
      (match s.nextAgent
       case None => Invalid(MissingNextAgent)
       case Some(name) => Resolve(name))
    case Elenchus => Goto(Dialectic)
    case Aporia => Goto(Dialectic)
    case Maieutics => Goto(Dialectic)
    case Dialectic => Resolve(RouteAfterDialectic(s))
  }

  /** How a fuelled run stops. */
  datatype Outcome =
    | Finished(state: State)
    | Failed(fault: Fault, state: State)
    | OutOfFuel(pending: Node, state: State)

  /** The nodes a run executed, in order, and how it stopped. */
  datatype Run = Run(visited: seq<Node>, outcome: Outcome)

  /**
   * Runs the graph from node `n` for at most `fuel` node executions. Each
   * step asks `respond` (the responder behind the node) for its update,
   * merges it into the state and follows the edge chosen on the new state.
   */
  function Execute(respond: (Node, State) -> Update, n: Node, s: State, fuel: nat): (r: Run)
    ensures |r.visited| <= fuel
    ensures fuel > 0 ==> |r.visited| > 0 && r.visited[0] == n
    ensures r.outcome.OutOfFuel? ==> |r.visited| == fuel
    decreases fuel
  {
    if fuel == 0 then Run([], OutOfFuel(n, s))
    else
      var t := Merge(s, respond(n, s));
      match Next(n, t)
      case Finish => Run([n], Finished(t))
      case Invalid(fault) => Run([n], Failed(fault, t))
      case Goto(m) =>
        var rest := Execute(respond, m, t, fuel - 1);
        Run([n] + rest.visited, rest.outcome)
  }

  /** A run of the whole graph, from its entry point. */
  function Start(respond: (Node, State) -> Update, s: State, fuel: nat): (r: Run)
    ensures fuel > 0 ==> |r.visited| > 0 && r.visited[0] == Arbiter
  {
    Execute(respond, Entry, s, fuel)
  }

  /** Exactly five nodes are registered, each under its own name, and the end is not one of them. */
  lemma RegistryExact()
    ensures Registry.Keys == {"arbiter", "elenchus", "aporia", "maieutics", "dialectic"}
    ensures |Registry.Keys| == 5
    ensures forall n: Node :: Name(n) in Registry && Registry[Name(n)] == n
    ensures END !in Registry
  {
  }

  /** The arbiter's choice is used verbatim: a name differing only in case is not a node. */
  lemma ArbiterChoiceNotNormalised(s: State)
    requires s.nextAgent == Some("Elenchus")
    ensures Next(Arbiter, s) == Invalid(UnknownNode("Elenchus"))
  {
  }

  /** The static edges of the graph: the arbiter may hand over to any node;
      content nodes lead to the evaluator; the evaluator loops back to the arbiter. */
  predicate Edge(a: Node, b: Node) {
    a == Arbiter || (IsContent(a) && b == Dialectic) || (a == Dialectic && b == Arbiter)
  }

  /** Every consecutive pair of nodes in `v` is joined by a static edge. */
  predicate FollowsEdges(v: seq<Node>) {
    forall i :: 0 <= i < |v| - 1 ==> Edge(v[i], v[i + 1])
  }

  /** Every transition the table takes between nodes is one of the static edges. */
  lemma NextFollowsEdge(n: Node, s: State)
    requires Next(n, s).Goto?
    ensures Edge(n, Next(n, s).node)
  {
  }

  /** Consecutive nodes of a run are joined by a static edge. */
  lemma {:induction false} RunFollowsEdges(respond: (Node, State) -> Update, n: Node, s: State, fuel: nat)
    ensures FollowsEdges(Execute(respond, n, s, fuel).visited)
    decreases fuel
  {
    if fuel > 0 {
      var t := Merge(s, respond(n, s));
      if Next(n, t).Goto? {
        var m := Next(n, t).node;
        NextFollowsEdge(n, t);
        RunFollowsEdges(respond, m, t, fuel - 1);
        var rest := Execute(respond, m, t, fuel - 1).visited;
        var v := Execute(respond, n, s, fuel).visited;
        assert v == [n] + rest;
        forall i | 0 <= i < |v| - 1
          ensures Edge(v[i], v[i + 1])
        {
          if i > 0 {
            assert v[i] == rest[i - 1] && v[i + 1] == rest[i];
          } else {
            assert v[1] == rest[0] == m;
          }
        }
      }
    }
  }

  /**
   * In any run, a content node is followed by the evaluator, the evaluator by
   * the arbiter, and a content node is entered only from the arbiter.
   */
  lemma RunOrdering(respond: (Node, State) -> Update, n: Node, s: State, fuel: nat)
    ensures var v := Execute(respond, n, s, fuel).visited;
      forall i :: 0 <= i < |v| - 1 ==>
        (IsContent(v[i]) ==> v[i + 1] == Dialectic) &&
        (v[i] == Dialectic ==> v[i + 1] == Arbiter) &&
        (IsContent(v[i + 1]) ==> v[i] == Arbiter)
  {
    RunFollowsEdges(respond, n, s, fuel);
  }

  /**
   * How a run can stop: it finishes only after the evaluator saw mastery
   * reached, or after the arbiter named the end; it fails only at the
   * arbiter; and a run that stops right after a content node ran out of fuel
   * with the evaluator pending.
   */
  lemma {:induction false} RunStops(respond: (Node, State) -> Update, n: Node, s: State, fuel: nat)
    ensures var r := Execute(respond, n, s, fuel);
      var v := r.visited;
      (r.outcome.Finished? ==>
        |v| > 0 &&
        ((v[|v| - 1] == Dialectic && r.outcome.state.masteryReached == Some(true)) ||
         (v[|v| - 1] == Arbiter && r.outcome.state.nextAgent == Some(END)))) &&
      (r.outcome.Failed? ==> |v| > 0 && v[|v| - 1] == Arbiter) &&
      (|v| > 0 && IsContent(v[|v| - 1]) ==> r.outcome.OutOfFuel? && r.outcome.pending == Dialectic)
    decreases fuel
  {
    if fuel > 0 {
      var t := Merge(s, respond(n, s));
      if Next(n, t).Goto? {
        var m := Next(n, t).node;
        RunStops(respond, m, t, fuel - 1);
        var rest := Execute(respond, m, t, fuel - 1);
        if rest.visited == [] {
          assert fuel == 1;
        }
      } else if Next(n, t).Finish? && n == Arbiter {
        assert t.nextAgent == Some(END);
      }
    }
  }

  /** Nodes only ever append to the conversation: the messages a run starts
      with are a prefix of the messages it ends with. */
  lemma {:induction false} MessagesOnlyGrow(respond: (Node, State) -> Update, n: Node, s: State, fuel: nat)
    ensures var t := Execute(respond, n, s, fuel).outcome.state;
      |s.messages| <= |t.messages| && t.messages[..|s.messages|] == s.messages
    decreases fuel
  {
    if fuel > 0 {
      var t := Merge(s, respond(n, s));
      if Next(n, t).Goto? {
        MessagesOnlyGrow(respond, Next(n, t).node, t, fuel - 1);
        var u := Execute(respond, Next(n, t).node, t, fuel - 1).outcome.state;
        assert u.messages[..|s.messages|] == u.messages[..|t.messages|][..|s.messages|];
      }
    }
  }

  /**
   * Nothing in the graph forces termination: while no responder reports
   * mastery and nobody names the end, no run finishes, however much fuel it
   * is given.
   */
  lemma {:induction false} NoFinishWithoutMastery(respond: (Node, State) -> Update, n: Node, s: State, fuel: nat)
    requires s.masteryReached != Some(true) && s.nextAgent != Some(END)
    requires forall m: Node, x: State ::
      respond(m, x).masteryReached != Some(true) && respond(m, x).nextAgent != Some(END)
    ensures !Execute(respond, n, s, fuel).outcome.Finished?
    decreases fuel
  {
    if fuel > 0 {
      var t := Merge(s, respond(n, s));
      assert t.masteryReached != Some(true) && t.nextAgent != Some(END);
      if Next(n, t).Goto? {
        NoFinishWithoutMastery(respond, Next(n, t).node, t, fuel - 1);
      }
    }
  }

  /**
   * A responder that always picks elenchus and never reports mastery:
   * under it the graph loops arbiter, elenchus, dialectic for ever.
   */
  function AlwaysElenchus(n: Node, s: State): Update {
    Update([], Some("elenchus"), None, Some(false))
  }

  /** Some runs never stop: under `AlwaysElenchus` every run, from any node
      and state, uses up whatever fuel it is given. */
  lemma {:induction false} ElenchusLoopNeverStops(n: Node, s: State, fuel: nat)
    ensures Execute(AlwaysElenchus, n, s, fuel).outcome.OutOfFuel?
    decreases fuel
  {
    if fuel > 0 {
      var t := Merge(s, AlwaysElenchus(n, s));
      assert t.nextAgent == Some("elenchus") && t.masteryReached == Some(false);
      assert Next(n, t).Goto? by {
        RegistryExact();
      }
      ElenchusLoopNeverStops(Next(n, t).node, t, fuel - 1);
    }
  }

  /** A responder that returns no update at all. */
  function EmptyResponder(n: Node, s: State): Update {
    Update([], None, None, None)
  }

  /**
   * With a responder that returns no update and a first turn that sets only
   * the messages, a run executes the arbiter and then fails: its edge reads
   * a next-agent key that nothing has set.
   */
  lemma EmptyResponderFailsAtArbiter(messages: seq<History.Message>, fuel: nat)
    requires fuel > 0
    ensures var s := State(messages, None, None, None);
      Start(EmptyResponder, s, fuel) == Run([Arbiter], Failed(MissingNextAgent, s))
  {
  }
}
