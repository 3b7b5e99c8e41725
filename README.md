# Socratic dialogue loop: context trimming and routing graph

This project models the two pieces of deterministic logic in a tutoring
dialogue system that routes a conversation between five language-model
responders (arbiter, elenchus, aporia, maieutics, dialectic):

- **Context trimming** (`history.py`). `estimate_tokens` estimates a text's
  token count. `cap_messages` trims a conversation to a token budget. It walks
  from the newest message backwards and keeps messages while the running total
  fits. The newest message is always kept. It stops at the first message that
  does not fit and restores chronological order. The model has the walk as the
  method `History.CapMessages`, with its loop. It is proved equal to
  `History.Capped`, an independent reference that picks the longest suffix
  fitting the budget, or the newest message alone. `Capped` carries the
  guarantees: an empty input gives an empty result; the result is a suffix
  ending with the newest message; it fits the budget or is exactly the newest
  message; the stop is greedy; trimming is idempotent. The defensive rebuild
  branch is shown to be unreachable. The rebuild itself is modelled as
  `History.RebuildFromNewest`.
- **Routing graph** (`agent_graph.py`, with the state record of
  `agent_state.py`). Nodes are a datatype. `AgentGraph.Next` is the transition
  table that `create_agent_graph` registers. `AgentGraph.RouteAfterDialectic`
  is the router after the evaluator. `AgentGraph.Execute` runs the graph with
  explicit fuel. The responders are a parameter `respond`, and their updates
  are merged as the state's reducer does: messages are appended, other keys
  overwritten. The lemmas cover ordering along runs, how runs can stop, the
  append-only transcript, and the absence of any termination guarantee.

Files: `optional.dfy` (an option type), `history.dfy` (module `History`),
`agent_graph.dfy` (module `AgentGraph`).

What the code does:

- The arbiter's choice is used verbatim: there is no parsing, normalisation or
  default fallback.
- There is no step-count guard. The fuel of `Execute` is a proof device, not a
  guard of the system.
- Termination reads a boolean `mastery_reached` flag, never a score against a
  threshold.
- The estimator returns 0 for empty text.
- A budget of 0 still keeps trailing zero-token messages
  (`ZeroBudgetKeepsEmptyMessages`); a negative budget keeps the newest message
  alone (`NegativeBudgetKeepsNewestOnly`).

## Model

| member | source | states |
|---|---|---|
| `History.EstimateTokens` | history.py:13-27 | 0 for empty text; with the fallback, at least 1 for non-empty text and exactly a quarter of the length rounded down when that is at least 1; otherwise the library tokenizer's count |
| `History.Capped` | history.py:30-66 | empty input gives empty result; otherwise a non-empty suffix of the input ending with its newest message; its total fits the budget, or it is exactly the newest message and that message alone exceeds the budget; if shorter than the input, adding the next older message would exceed the budget; a newest message over budget is kept alone |
| `History.GreedyAgreement` | history.py:42-46 | when every suffix from `k` on fits and the one a message older does not, the trimmed result is exactly the suffix from `k`: the greedy walk and the longest-fitting-suffix reference agree |
| `History.TotalMonotone` | history.py:43-46 | a longer suffix never has a smaller token total, because counts are non-negative |
| `History.CapMessages` | history.py:30-66 | the walk from newest to oldest, with its running total, its break and the reversal, returns exactly `Capped`; the defensive rebuild branch is unreachable |
| `History.ReverseReverse` | history.py:48 | reversing twice is the identity: the walk collects the messages newest first, and reversing that list restores the input's chronological order |
| `History.RebuildFromNewest` | history.py:50-64 | the rebuild returns the newest message alone when it uses up the budget (`>=`); otherwise it returns the same result as the walk |
| `History.RebuildThresholdDiffers` | history.py:54 | the rebuild's `>=` test differs from the walk: when the newest message uses exactly the budget, the walk still keeps an older empty message |
| `History.ZeroBudgetKeepsEmptyMessages` | history.py:43-46 | with a budget of 0, two empty messages are both kept: the result is not reduced to the newest message |
| `History.NegativeBudgetKeepsNewestOnly` | history.py:43-44 | with a negative budget, a non-empty conversation is trimmed to its newest message alone, since any further message makes the non-negative total exceed the budget |
| `History.CappedIdempotent` | history.py:40-48 | trimming an already trimmed conversation with the same budget returns it unchanged |
| `AgentGraph.Merge` | agent_state.py:9 | the new state's messages are the old messages followed by the node's new messages; every other key the node returns replaces the old value, and absent keys are kept |
| `AgentGraph.Resolve` | agent_graph.py:27-31 | a destination name is the end exactly when it is `__end__`, a node exactly when it is one of the registered names (and then the node registered under it), and otherwise an unknown-node fault |
| `AgentGraph.RegistryExact` | agent_graph.py:27-31 | exactly five names are registered, each node under its own name, and the end is not among them |
| `AgentGraph.RouteAfterDialectic` | agent_graph.py:6-14 | the end exactly when `mastery_reached` is true, and `arbiter` otherwise; an absent flag routes to `arbiter` |
| `AgentGraph.Next` | agent_graph.py:36-45 | elenchus, aporia and maieutics lead to dialectic; dialectic leads to arbiter or the end, the end exactly when mastery is reached; arbiter leads to the destination named by `next_agent`, used verbatim, or fails when the key is absent; only the arbiter can fail |
| `AgentGraph.ArbiterChoiceNotNormalised` | agent_graph.py:37 | a `next_agent` of `Elenchus` (capitalised) is not resolved to the elenchus node but is an unknown-node fault |
| `AgentGraph.NextFollowsEdge` | agent_graph.py:36-45 | every node-to-node transition of the table is one of the static edges |
| `AgentGraph.Execute` | agent_graph.py:37-45 | a run executes at most `fuel` nodes, starts with the node it is given, and uses up all its fuel when it stops for lack of it |
| `AgentGraph.Start` | agent_graph.py:34 | every run of the graph begins at the arbiter |
| `AgentGraph.RunFollowsEdges` | agent_graph.py:39-45 | consecutive nodes of every run are joined by a static edge |
| `AgentGraph.RunOrdering` | agent_graph.py:40-45 | in every run a content node is followed by dialectic, dialectic by arbiter, and a content node is entered only from arbiter |
| `AgentGraph.RunStops` | agent_graph.py:10-13 | a run finishes only after dialectic with mastery reached, or after arbiter with `next_agent` naming the end; a routing fault occurs only at arbiter; a run whose last node is a content node ran out of fuel with dialectic pending |
| `AgentGraph.MessagesOnlyGrow` | agent_state.py:9 | the messages a run starts with are a prefix of the messages it ends with |
| `AgentGraph.NoFinishWithoutMastery` | agent_graph.py:10-14 | if no responder ever reports mastery or names the end, no run finishes, whatever its fuel: the graph gives no termination guarantee (a run may still stop with a routing fault) |
| `AgentGraph.ElenchusLoopNeverStops` | agent_graph.py:37-45 | with a responder that always names elenchus and never reports mastery, every run, from any node and state, uses up all its fuel: some runs never stop |
| `AgentGraph.EmptyResponderFailsAtArbiter` | agent_graph.py:34-37 | with a responder that returns no update, a first turn that sets only the messages runs the arbiter and then fails, because `next_agent` is unset |

## Left out

- The tokenizer library branch of `estimate_tokens` (history.py:21-25) is an opaque function from text to a non-negative count (`Tokenizer.Library`). Whether the library is used is a parameter; `count` also covers the per-text fallback taken when the library raises on a particular text (history.py:26-27).
- `EstimateTokens`: the fallback divides the length by 4 in floating point and truncates. The model uses exact integer division. The two differ only for lengths beyond 2^53.
- `CapMessages`: `getattr(message, "content", "")` is modelled by every message having a text content. Content that is not a string is not modelled.
- `CapMessages`: the identity test `kept[-1] is not messages[-1]` is modelled as value inequality. The kept element is the very same element, so both tests agree.
- `load_history`, `save_history` and `reset_history` (history.py:69-115): file I/O, JSON and wall-clock timestamps.
- The responder models and prompts (agents.py:4-37). The responders are the parameter `respond` of `Execute`.
- The node methods as shipped (agents.py:39-52) declare no parameters, so calling one with the state raises TypeError. They are not modelled; `EmptyResponder` is a responder that returns no update, not those methods.
- `RunStops`: responders are total functions. An exception raised inside a node (a failing model call, the TypeError above) is not modelled, so `Failed` covers only routing faults: a missing or unknown `next_agent`.
- `Execute`: any responder may set `mastery_reached`, although it is not a declared key of the state record (agent_state.py:5-11). If the framework drops writes to undeclared keys, the model allows more behaviours than the program; the other lemmas about runs are "only if" statements, and the witness lemmas set no flag to true, so they stay sound.
- The interactive loop and streaming output (main.py).
- The graph framework's compilation and execution internals (agent_graph.py:25, agent_graph.py:47), including any recursion limit it imposes. Runs are bounded by explicit fuel instead.
- `mastery_score` is carried in the state as an optional real and never read. No score arithmetic is modelled.
- `RouteAfterDialectic`: `bool(...)` of an arbitrary value is modelled for a boolean flag only. The truthiness of other values is not modelled.
- `Resolve`: what the graph framework does with a destination that is not a registered node (raise, or end the run) is not modelled; the model stops the run with `UnknownNode`.
