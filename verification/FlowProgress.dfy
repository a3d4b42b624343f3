/** What validation is for: a validated flow whose nodes all do their own work runs to its end. */
module FlowProgress {
  import opened Prelude
  import opened FlowModel
  import opened FlowValidate
  import opened FlowTree
  import opened FlowRun

  /** Every node does its own work on every input: behavior and data resolve, and its command succeeds. */
  ghost predicate Steady(env: Env, nodes: seq<Node>) {
    forall i: nat, input :: i < |nodes| ==> Step(env, nodes, i, input).0.Some?
  }

  /** Every node has a reference. */
  ghost predicate Named(nodes: seq<Node>) {
    forall i :: 0 <= i < |nodes| ==> nodes[i].ref != []
  }

  /** Every path from node `i` ends in a node that is usable by itself. */
  ghost predicate GoodFrom(nodes: seq<Node>, i: nat) {
    forall p :: PathFrom(nodes, i, p) ==> Good(nodes, p[|p| - 1])
  }

  lemma GoodHere(nodes: seq<Node>, i: nat)
    requires i < |nodes| && GoodFrom(nodes, i)
    ensures Good(nodes, i)
  {
    hide Good;
    assert PathFrom(nodes, i, [i]);
  }

  lemma GoodBelow(nodes: seq<Node>, i: nat, b: nat)
    requires Edge(nodes, i, b) && GoodFrom(nodes, i)
    ensures GoodFrom(nodes, b)
  {
    hide Good, Edge;
    forall p | PathFrom(nodes, b, p)
      ensures Good(nodes, p[|p| - 1])
    {
      PathCons(nodes, i, p);
      assert PathFrom(nodes, i, [i] + p);
    }
  }

  /** A plain link of a usable node leads to a node. */
  lemma LinkLeads(nodes: seq<Node>, i: nat, j: nat) returns (b: nat)
    requires Named(nodes) && PlainFlow(nodes) && Good(nodes, i) && j < |nodes[i].links|
    ensures NodeOf(nodes, nodes[i].links[j].value) == Some(b) && b < |nodes| && nodes[i].links[j].value != []
    ensures Plain(nodes[i].links[j]) && Edge(nodes, i, b)
  {
    PlainNode(nodes, i);
    assert LinkOk(nodes, nodes[i].links[j]);
    b := NodeOf(nodes, nodes[i].links[j].value).value;
    LiteralEdge(nodes, i, j, b);
  }

  lemma {:induction false} NodeRuns(env: Env, nodes: seq<Node>, i: nat, input: seq<byte>, fuel: nat)
    requires PlainTargets(env) && PlainFlow(nodes) && Steady(env, nodes) && Named(nodes)
    requires i < |nodes| && GoodFrom(nodes, i) && PathsWithin(nodes, i, fuel)
    ensures Tree(env, nodes, i, input, fuel).ok
    decreases fuel, 1, 0
  {
    hide Step, PathsWithin, GoodFrom, PlainTargets, PlainFlow;
    OwnPath(nodes, i, fuel);
    assert Step(env, nodes, i, input).0.Some?;
    var output := Step(env, nodes, i, input).0.value;
    LinksRun(env, nodes, i, 0, output, fuel);
    assert nodes[i].links[0..] == nodes[i].links;
  }

  lemma {:induction false} LinksRun(env: Env, nodes: seq<Node>, i: nat, j: nat, input: seq<byte>, fuel: nat)
    requires PlainTargets(env) && PlainFlow(nodes) && Steady(env, nodes) && Named(nodes)
    requires i < |nodes| && GoodFrom(nodes, i) && PathsWithin(nodes, i, fuel) && fuel > 0 && j <= |nodes[i].links|
    ensures Links(env, nodes, Some(i), nodes[i].links[j..], input, fuel).ok
    decreases fuel, 0, |nodes[i].links| - j
  {
    hide Tree, Links, Target, PathsWithin, GoodFrom, Edge, Good, PlainFlow, PlainTargets, Steady, Named, Plain;
    var links := nodes[i].links;
    if j < |links| {
      GoodHere(nodes, i);
      var b := LinkLeads(nodes, i, j);
      PathsBelow(nodes, i, b, fuel);
      GoodBelow(nodes, i, b);
      NodeRuns(env, nodes, b, input, fuel - 1);
      PlainTarget(env, nodes, Some(i), links[j], input, fuel - 1);
      LinksRun(env, nodes, i, j + 1, input, fuel);
      LinksFrom(env, nodes, Some(i), links, j, input, fuel);
    } else {
      NoLinks(env, nodes, Some(i), links, input, fuel);
    }
  }

  lemma RootRuns(env: Env, nodes: seq<Node>, roots: seq<nat>, root: nat, input: seq<byte>)
    requires PlainTargets(env) && PlainFlow(nodes) && Steady(env, nodes) && Named(nodes) && |nodes| <= MAX_DEPTH + 1
    requires Sound(nodes, roots) && root in roots && root < |nodes|
    ensures Tree(env, nodes, root, input, MAX_DEPTH + 1).ok
  {
    hide Tree, PlainTargets, PlainFlow, Steady, Named, Good, NoRepeat, StepAt;
    SoundBoundsPaths(nodes, roots, root);
    WiderBound(nodes, root, |nodes|, MAX_DEPTH + 1);
    forall p | PathFrom(nodes, root, p)
      ensures Good(nodes, p[|p| - 1])
    {
      assert FromRoots(nodes, roots, p);
    }
    NodeRuns(env, nodes, root, input, MAX_DEPTH + 1);
  }

  lemma {:induction false} EntriesRun(env: Env, nodes: seq<Node>, entries: seq<Link>, roots: seq<nat>,
                                      input: seq<byte>)
    requires PlainTargets(env) && PlainFlow(nodes) && Steady(env, nodes) && Named(nodes) && |nodes| <= MAX_DEPTH + 1
    requires AllPlain(entries) && Sound(nodes, roots)
    requires forall k :: 0 <= k < |entries| ==> NodeOf(nodes, entries[k].value).Some?
    requires forall k :: 0 <= k < |entries| ==> NodeOf(nodes, entries[k].value).value in roots
    ensures Links(env, nodes, None, entries, input, MAX_DEPTH + 2).ok
    decreases |entries|
  {
    hide Tree, Target, PlainTargets, PlainFlow, Steady, Sound;
    if entries != [] {
      var root := NodeOf(nodes, entries[0].value).value;
      assert nodes[root].ref == entries[0].value;
      hide Named, NodeOf;
      RootRuns(env, nodes, roots, root, input);
      PlainTarget(env, nodes, None, entries[0], input, MAX_DEPTH + 1);
      EntriesRun(env, nodes, entries[1..], roots, input);
    }
  }

  /**
   * A validated flow of at most sixty-five nodes with plain links runs to its end if every node does its own
   * work: no link, entry or depth is left to fail.
   */
  lemma ValidRuns(env: Env, nodes: seq<Node>, entries: seq<Link>, entry: Option<seq<byte>>, input: seq<byte>)
    requires PlainTargets(env) && PlainFlow(nodes) && AllPlain(entries) && Steady(env, nodes) && Named(nodes)
    requires Valid(nodes, entries, entry) && |nodes| <= 65
    ensures Whole(env, nodes, entries, entry, input).ok
  {
    hide Tree, Links, PlainTargets, PlainFlow, Steady, Named, Sound;
    var roots := Starts(nodes, entries, entry).value;
    if entry.Some? {
      RootRuns(env, nodes, roots, roots[0], input);
    } else {
      RootsMean(nodes, entries);
      forall k | 0 <= k < |entries|
        ensures NodeOf(nodes, entries[k].value).Some? && NodeOf(nodes, entries[k].value).value in roots
      {
        assert Plain(entries[k]);
      }
      EntriesRun(env, nodes, entries, roots, input);
    }
  }
}
