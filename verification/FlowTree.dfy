/** What a flow means: the tree of runs from a node, and how deep it goes. */
module FlowTree {
  import opened Prelude
  import opened FlowModel
  import opened FlowValidate

  const MAX_DEPTH := 64
  const MAX_BRANCHES := 2048

  /** One started node command: whose it is, its text and its input. */
  datatype Command = Command(node: nat, text: seq<byte>, input: seq<byte>)

  /**
   * What node data and the shell contribute: whether the data of a node resolves, the expanded command of
   * a node, the output of a command, and the reference a link of a node (or an entry of the flow) resolves
   * to on an input; None where the code reports a failure.
   */
  datatype Env = Env(
    collects: nat -> bool, expand: nat -> Option<seq<byte>>, shell: Command -> Option<seq<byte>>,
    target: (Option<nat>, Link, seq<byte>) -> Option<seq<byte>>)

  /** kc_flow_node_behavior: the node at the end of the `use` chain. */
  function Behavior(nodes: seq<Node>, i: nat, depth: nat): (r: Option<nat>)
    ensures r.Some? ==> r.value < |nodes|
    decreases MAX_DEPTH + 1 - depth
  {
    if i >= |nodes| || depth > MAX_DEPTH then None
    else if nodes[i].use == [] then Some(i)
    else
      var target := NodeOf(nodes, nodes[i].use);
      if target.None? then None else Behavior(nodes, target.value, depth + 1)
  }

  /** Node `c[k]` takes its behavior from node `c[k + 1]`. */
  ghost predicate UsesAt(nodes: seq<Node>, c: seq<nat>, k: int)
    requires 0 <= k < |c| - 1
  {
    c[k] < |nodes| && nodes[c[k]].use != [] && NodeOf(nodes, nodes[c[k]].use) == Some(c[k + 1])
  }

  /** A chain of `use` references from node `i` to node `b`, which has a behavior of its own. */
  ghost predicate UseChain(nodes: seq<Node>, i: nat, c: seq<nat>, b: nat) {
    && c != [] && c[0] == i && c[|c| - 1] == b && b < |nodes| && nodes[b].use == []
    && forall k :: 0 <= k < |c| - 1 ==> UsesAt(nodes, c, k)
  }

  lemma UseChainTail(nodes: seq<Node>, i: nat, c: seq<nat>, b: nat)
    requires UseChain(nodes, i, c, b) && |c| > 1
    ensures i < |nodes| && nodes[i].use != [] && NodeOf(nodes, nodes[i].use) == Some(c[1])
            && UseChain(nodes, c[1], c[1..], b)
  {
    hide NodeOf;
    assert UsesAt(nodes, c, 0);
    forall k | 0 <= k < |c| - 2
      ensures UsesAt(nodes, c[1..], k)
    {
      assert UsesAt(nodes, c, k + 1);
    }
  }

  lemma UseChainCons(nodes: seq<Node>, i: nat, c: seq<nat>, next: nat, b: nat)
    requires UseChain(nodes, next, c, b)
    requires i < |nodes| && nodes[i].use != [] && NodeOf(nodes, nodes[i].use) == Some(next)
    ensures UseChain(nodes, i, [i] + c, b)
  {
    hide NodeOf;
    var longer := [i] + c;
    forall k | 0 <= k < |longer| - 1
      ensures UsesAt(nodes, longer, k)
    {
      assert k > 0 ==> UsesAt(nodes, c, k - 1);
    }
  }

  lemma {:induction false} BehaviorHasChain(nodes: seq<Node>, i: nat, depth: nat) returns (c: seq<nat>)
    requires Behavior(nodes, i, depth).Some?
    ensures UseChain(nodes, i, c, Behavior(nodes, i, depth).value) && |c| + depth <= MAX_DEPTH + 1
    decreases MAX_DEPTH + 1 - depth
  {
    if nodes[i].use == [] {
      c := [i];
    } else {
      var next := NodeOf(nodes, nodes[i].use).value;
      var rest := BehaviorHasChain(nodes, next, depth + 1);
      UseChainCons(nodes, i, rest, next, Behavior(nodes, i, depth).value);
      c := [i] + rest;
    }
  }

  lemma {:induction false} ChainIsBehavior(nodes: seq<Node>, i: nat, depth: nat, c: seq<nat>, b: nat)
    requires UseChain(nodes, i, c, b) && |c| + depth <= MAX_DEPTH + 1
    ensures Behavior(nodes, i, depth) == Some(b)
    decreases |c|
  {
    if |c| > 1 {
      UseChainTail(nodes, i, c, b);
      ChainIsBehavior(nodes, c[1], depth + 1, c[1..], b);
    }
  }

  /**
   * The behavior of a node is the end of a `use` chain that fits the depth guard; a missing target, a
   * cycle or a longer chain gives none.
   */
  lemma BehaviorIsChain(nodes: seq<Node>, i: nat, depth: nat, b: nat)
    ensures Behavior(nodes, i, depth) == Some(b)
            <==> exists c :: UseChain(nodes, i, c, b) && |c| + depth <= MAX_DEPTH + 1
  {
    hide Behavior, UseChain;
    if Behavior(nodes, i, depth) == Some(b) {
      var c := BehaviorHasChain(nodes, i, depth);
    } else {
      forall c | UseChain(nodes, i, c, b)
        ensures |c| + depth > MAX_DEPTH + 1
      {
        if |c| + depth <= MAX_DEPTH + 1 {
          ChainIsBehavior(nodes, i, depth, c, b);
          assert false;
        }
      }
    }
  }

  /** Node `i` takes its behavior from node `b`, through a chain that fits the depth guard. */
  ghost predicate BehavesAs(nodes: seq<Node>, i: nat, c: seq<nat>, b: nat) {
    UseChain(nodes, i, c, b) && |c| <= 65
  }

  lemma ChainsLead(nodes: seq<Node>, i: nat)
    ensures forall c: seq<nat>, b: nat :: BehavesAs(nodes, i, c, b) ==> b < |nodes| && Behavior(nodes, i, 0) == Some(b)
    ensures (forall c: seq<nat>, b: nat :: !BehavesAs(nodes, i, c, b)) ==> Behavior(nodes, i, 0) == None
  {
    hide Behavior;
    forall c: seq<nat>, b: nat | BehavesAs(nodes, i, c, b)
      ensures b < |nodes| && Behavior(nodes, i, 0) == Some(b)
    {
      BehaviorIsChain(nodes, i, 0, b);
    }
    if Behavior(nodes, i, 0).Some? {
      var b := Behavior(nodes, i, 0).value;
      BehaviorIsChain(nodes, i, 0, b);
      var c :| UseChain(nodes, i, c, b) && |c| <= MAX_DEPTH + 1;
      assert BehavesAs(nodes, i, c, b);
    }
  }

  /** What a node makes of its input: None where running it fails, with the command it started, if any. */
  function Step(env: Env, nodes: seq<Node>, i: nat, input: seq<byte>): (Option<seq<byte>>, seq<Command>) {
    var behavior := Behavior(nodes, i, 0);
    if behavior.None? || !env.collects(i) then (None, [])
    else if nodes[behavior.value].exec == [] then (Some(input), [])
    else
      var text := env.expand(i);
      if text.None? then (None, [])
      else
        var command := Command(i, text.value, input);
        (env.shell(command), [command])
  }

  /** A run without stop requests: did it succeed, the branches it made and the commands it started. */
  datatype Outcome = Outcome(ok: bool, leaves: seq<seq<byte>>, commands: seq<Command>)

  /** First `a`, then `b` if `a` succeeded. */
  function Then(a: Outcome, b: Outcome): Outcome {
    if a.ok then Outcome(b.ok, a.leaves + b.leaves, a.commands + b.commands) else a
  }

  /** The run of a node with `fuel` levels left. */
  function Tree(env: Env, nodes: seq<Node>, i: nat, input: seq<byte>, fuel: nat): Outcome
    decreases fuel, 1, 0
  {
    if i >= |nodes| || fuel == 0 then Outcome(false, [], [])
    else
      var (output, commands) := Step(env, nodes, i, input);
      if output.None? then Outcome(false, [], commands)
      else if nodes[i].links == [] then Outcome(true, [output.value], commands)
      else Then(Outcome(true, [], commands), Links(env, nodes, Some(i), nodes[i].links, output.value, fuel))
  }

  /** The runs of the targets of `links`, left to right, on the same input. */
  function Links(env: Env, nodes: seq<Node>, owner: Option<nat>, links: seq<Link>, input: seq<byte>, fuel: nat): Outcome
    requires fuel > 0
    decreases fuel, 0, |links|
  {
    if links == [] then Outcome(true, [], [])
    else Then(Target(env, nodes, owner, links[0], input, fuel - 1), Links(env, nodes, owner, links[1..], input, fuel))
  }

  /** The run of one link target; a link that does not resolve, or to an empty or unknown reference, fails. */
  function Target(env: Env, nodes: seq<Node>, owner: Option<nat>, link: Link, input: seq<byte>, fuel: nat): Outcome
    decreases fuel, 2, 0
  {
    var ref := env.target(owner, link, input);
    if ref.None? || ref.value == [] || NodeOf(nodes, ref.value).None? then Outcome(false, [], [])
    else Tree(env, nodes, NodeOf(nodes, ref.value).value, input, fuel)
  }

  // ---------- flows whose links are plain text ----------

  /** A literal link whose text has no placeholder. */
  predicate Plain(link: Link) {
    !link.computed && '<' as int !in link.value
  }

  predicate AllPlain(links: seq<Link>) {
    forall j :: 0 <= j < |links| ==> Plain(links[j])
  }

  ghost predicate PlainFlow(nodes: seq<Node>) {
    forall i :: 0 <= i < |nodes| ==> AllPlain(nodes[i].links)
  }

  /** Plain text resolves to itself. */
  ghost predicate PlainTargets(env: Env) {
    forall owner, link, input :: Plain(link) ==> env.target(owner, link, input) == Some(link.value)
  }

  lemma PlainNode(nodes: seq<Node>, i: nat)
    requires PlainFlow(nodes) && i < |nodes|
    ensures AllPlain(nodes[i].links)
  {
  }

  /** A plain link leads to the node its text names. */
  lemma PlainTarget(env: Env, nodes: seq<Node>, owner: Option<nat>, link: Link, input: seq<byte>, fuel: nat)
    requires PlainTargets(env) && Plain(link)
    ensures var target := NodeOf(nodes, link.value);
            Target(env, nodes, owner, link, input, fuel)
            == if link.value == [] || target.None? then Outcome(false, [], [])
               else Tree(env, nodes, target.value, input, fuel)
  {
    hide Tree;
  }

  // ---------- the depth guard against the size of a validated flow ----------

  ghost predicate PathFrom(nodes: seq<Node>, i: nat, p: seq<nat>) {
    IsPath(nodes, p) && p[0] == i
  }

  /** No path from node `i` has more than `n` nodes. */
  ghost predicate PathsWithin(nodes: seq<Node>, i: nat, n: nat) {
    forall p :: PathFrom(nodes, i, p) ==> |p| <= n
  }

  lemma PathsBelow(nodes: seq<Node>, i: nat, b: nat, n: nat)
    requires Edge(nodes, i, b) && PathsWithin(nodes, i, n)
    ensures n > 0 && PathsWithin(nodes, b, n - 1)
  {
    EdgeStarts(nodes, i, b);
    OwnPath(nodes, i, n);
    forall p | PathFrom(nodes, b, p)
      ensures |p| <= n - 1
    {
      PathCons(nodes, i, p);
      assert PathFrom(nodes, i, [i] + p);
    }
  }

  lemma EdgeStarts(nodes: seq<Node>, a: nat, b: nat)
    requires Edge(nodes, a, b)
    ensures a < |nodes|
  {
  }

  /** With a level for every node of the longest path, more levels change nothing. */
  lemma {:induction false} FuelIsEnough(env: Env, nodes: seq<Node>, i: nat, input: seq<byte>, fuel: nat, more: nat)
    requires i < |nodes| && PlainTargets(env) && PlainFlow(nodes) && PathsWithin(nodes, i, fuel) && more >= fuel
    ensures Tree(env, nodes, i, input, fuel) == Tree(env, nodes, i, input, more)
    decreases fuel, 1, 0
  {
    hide Step, PathsWithin;
    OwnPath(nodes, i, fuel);
    var output := Step(env, nodes, i, input).0;
    if output.Some? {
      LinkFuelIsEnough(env, nodes, i, 0, output.value, fuel, more);
      assert nodes[i].links[0..] == nodes[i].links;
    }
  }

  lemma OwnPath(nodes: seq<Node>, i: nat, n: nat)
    requires i < |nodes| && PathsWithin(nodes, i, n)
    ensures n > 0
  {
    assert PathFrom(nodes, i, [i]);
  }

  lemma {:induction false} LinkFuelIsEnough(env: Env, nodes: seq<Node>, i: nat, j: nat, input: seq<byte>, fuel: nat,
                                            more: nat)
    requires i < |nodes| && PlainTargets(env) && PlainFlow(nodes) && PathsWithin(nodes, i, fuel) && more >= fuel > 0
             && j <= |nodes[i].links|
    ensures Links(env, nodes, Some(i), nodes[i].links[j..], input, fuel)
         == Links(env, nodes, Some(i), nodes[i].links[j..], input, more)
    decreases fuel, 0, |nodes[i].links| - j
  {
    hide Tree, Links, Target, Then, PathsWithin, Edge, PlainFlow, PlainTargets;
    var links := nodes[i].links;
    if j < |links| {
      LinksFrom(env, nodes, Some(i), links, j, input, fuel);
      LinksFrom(env, nodes, Some(i), links, j, input, more);
      LinkFuelIsEnough(env, nodes, i, j + 1, input, fuel, more);
      var target := NodeOf(nodes, links[j].value);
      if target.Some? {
        LiteralEdge(nodes, i, j, target.value);
        PathsBelow(nodes, i, target.value, fuel);
        FuelIsEnough(env, nodes, target.value, input, fuel - 1, more - 1);
      }
      PlainNode(nodes, i);
      TargetSame(env, nodes, Some(i), links[j], input, fuel - 1, more - 1);
    } else {
      NoLinks(env, nodes, Some(i), links, input, fuel);
      NoLinks(env, nodes, Some(i), links, input, more);
    }
  }

  lemma NoLinks(env: Env, nodes: seq<Node>, owner: Option<nat>, links: seq<Link>, input: seq<byte>, fuel: nat)
    requires fuel > 0
    ensures Links(env, nodes, owner, links[|links|..], input, fuel) == Outcome(true, [], [])
  {
  }

  lemma TargetSame(env: Env, nodes: seq<Node>, owner: Option<nat>, link: Link, input: seq<byte>, a: nat, b: nat)
    requires PlainTargets(env) && Plain(link)
    requires var target := NodeOf(nodes, link.value);
             target.Some? ==> Tree(env, nodes, target.value, input, a) == Tree(env, nodes, target.value, input, b)
    ensures Target(env, nodes, owner, link, input, a) == Target(env, nodes, owner, link, input, b)
  {
    hide Tree, Target, PlainTargets;
    PlainTarget(env, nodes, owner, link, input, a);
    PlainTarget(env, nodes, owner, link, input, b);
  }

  lemma LinksFrom(env: Env, nodes: seq<Node>, owner: Option<nat>, links: seq<Link>, j: nat, input: seq<byte>, fuel: nat)
    requires j < |links| && fuel > 0
    ensures Links(env, nodes, owner, links[j..], input, fuel)
         == Then(Target(env, nodes, owner, links[j], input, fuel - 1),
                 Links(env, nodes, owner, links[j + 1..], input, fuel))
  {
    hide Target;
    assert links[j..][0] == links[j] && links[j..][1..] == links[j + 1..];
  }

  lemma LiteralEdge(nodes: seq<Node>, i: nat, j: nat, b: nat)
    requires PlainFlow(nodes) && i < |nodes| && j < |nodes[i].links|
             && NodeOf(nodes, nodes[i].links[j].value) == Some(b)
    ensures Edge(nodes, i, b) && b < |nodes|
  {
    assert Plain(nodes[i].links[j]) by { PlainNode(nodes, i); }
    LinkEdge(nodes, i, j, b);
  }

  /** A run that succeeds has a level for every node of every path. */
  lemma {:induction false} OkBoundsPaths(env: Env, nodes: seq<Node>, i: nat, input: seq<byte>, fuel: nat, p: seq<nat>)
    requires PlainTargets(env) && PlainFlow(nodes)
    requires Tree(env, nodes, i, input, fuel).ok && IsPath(nodes, p) && p[0] == i
    ensures |p| <= fuel
    decreases |p|
  {
    hide Tree, Step, Links, Edge, Target, StepAt, PlainTargets, PlainFlow, NodeOf;
    var output, links := OkNode(env, nodes, i, input, fuel);
    if |p| > 1 {
      PathTail(nodes, p);
      var j := EdgeLink(nodes, i, p[1]);
      LinkSucceeds(env, nodes, Some(i), links, output, fuel, j);
      PlainNode(nodes, i);
      PlainTargetOk(env, nodes, Some(i), links[j], output, fuel - 1, p[1]);
      OkBoundsPaths(env, nodes, p[1], output, fuel - 1, p[1..]);
    }
  }

  lemma EdgeLink(nodes: seq<Node>, a: nat, b: nat) returns (j: nat)
    requires Edge(nodes, a, b)
    ensures a < |nodes| && j < |nodes[a].links| && NodeOf(nodes, nodes[a].links[j].value) == Some(b)
  {
    var k :| 0 <= k < |nodes[a].links| && LinkTo(nodes, nodes[a].links[k], b);
    j := k;
  }

  lemma PlainTargetOk(env: Env, nodes: seq<Node>, owner: Option<nat>, link: Link, input: seq<byte>, fuel: nat, b: nat)
    requires PlainTargets(env) && Plain(link) && NodeOf(nodes, link.value) == Some(b)
    requires Target(env, nodes, owner, link, input, fuel).ok
    ensures Tree(env, nodes, b, input, fuel).ok
  {
    hide Tree, Target, PlainTargets;
    PlainTarget(env, nodes, owner, link, input, fuel);
  }

  lemma OkNode(env: Env, nodes: seq<Node>, i: nat, input: seq<byte>, fuel: nat)
    returns (output: seq<byte>, links: seq<Link>)
    requires Tree(env, nodes, i, input, fuel).ok
    ensures fuel > 0 && i < |nodes| && links == nodes[i].links
    ensures links != [] ==> Links(env, nodes, Some(i), links, output, fuel).ok
  {
    hide Step;
    links := nodes[i].links;
    var result := Step(env, nodes, i, input).0;
    output := result.value;
  }

  lemma {:induction false} LinkSucceeds(env: Env, nodes: seq<Node>, owner: Option<nat>, links: seq<Link>,
                                        input: seq<byte>, fuel: nat, j: nat)
    requires fuel > 0 && Links(env, nodes, owner, links, input, fuel).ok && j < |links|
    ensures Target(env, nodes, owner, links[j], input, fuel - 1).ok
    decreases |links|
  {
    hide Target;
    if j > 0 {
      LinkSucceeds(env, nodes, owner, links[1..], input, fuel, j - 1);
    }
  }

  /** The depth guard exactly: a run that succeeds with enough levels succeeds with `fuel` when no path is longer. */
  lemma GuardExactly(env: Env, nodes: seq<Node>, i: nat, input: seq<byte>, fuel: nat, more: nat)
    requires i < |nodes| && PlainTargets(env) && PlainFlow(nodes) && more >= fuel && Tree(env, nodes, i, input, more).ok
    ensures Tree(env, nodes, i, input, fuel).ok <==> PathsWithin(nodes, i, fuel)
    ensures PathsWithin(nodes, i, fuel) ==> Tree(env, nodes, i, input, fuel) == Tree(env, nodes, i, input, more)
  {
    hide Tree, IsPath;
    if PathsWithin(nodes, i, fuel) {
      FuelIsEnough(env, nodes, i, input, fuel, more);
    } else {
      var p :| PathFrom(nodes, i, p) && |p| > fuel;
      if Tree(env, nodes, i, input, fuel).ok {
        OkBoundsPaths(env, nodes, i, input, fuel, p);
        assert false;
      }
    }
  }

  /** In a validated flow no path from a root is longer than the flow. */
  lemma SoundBoundsPaths(nodes: seq<Node>, roots: seq<nat>, root: nat)
    requires Sound(nodes, roots) && root in roots
    ensures PathsWithin(nodes, root, |nodes|)
  {
    hide IsPath, NoRepeat, Good;
    forall p | PathFrom(nodes, root, p)
      ensures |p| <= |nodes|
    {
      assert FromRoots(nodes, roots, p);
      PathLength(nodes, p);
    }
  }
}
