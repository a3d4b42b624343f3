/** The parsed flow of libflow.c: nodes, links between them, and node lookup. */
module FlowModel {
  import opened Prelude

  const MAX_NODES := 512

  /** A link target: a literal reference, or a computed value (an `exec` record). */
  datatype Link = Link(value: seq<byte>, computed: bool)

  /** kc_flow_node_t without data and import; an absent `use` or `exec` is empty. */
  datatype Node = Node(ref: seq<byte>, use: seq<byte>, exec: seq<byte>, links: seq<Link>)

  ghost predicate IsFirstRef(nodes: seq<Node>, ref: seq<byte>, i: nat) {
    i < |nodes| && nodes[i].ref == ref && forall k :: 0 <= k < i ==> nodes[k].ref != ref
  }

  /** The first node with a reference. */
  function NodeOf(nodes: seq<Node>, ref: seq<byte>): (r: Option<nat>)
    ensures r.Some? ==> IsFirstRef(nodes, ref, r.value)
    ensures r.None? ==> forall k :: 0 <= k < |nodes| ==> nodes[k].ref != ref
  {
    if nodes == [] then None
    else
      var n := |nodes| - 1;
      var before := NodeOf(nodes[..n], ref);
      assert forall k :: 0 <= k < n ==> nodes[..n][k] == nodes[k];
      if before.Some? then before else if nodes[n].ref == ref then Some(n) else None
  }

  /** kc_flow_model_find */
  method Find(nodes: seq<Node>, ref: seq<byte>) returns (r: Option<nat>)
    ensures r == NodeOf(nodes, ref)
  {
    var i := 0;
    while i < |nodes|
      invariant 0 <= i <= |nodes| && forall k :: 0 <= k < i ==> nodes[k].ref != ref
    {
      if nodes[i].ref == ref {
        return Some(i);
      }
      i := i + 1;
    }
    return None;
  }

  // ---------- paths along literal links ----------

  /** Node `a` has a literal link to node `b`. */
  ghost predicate Edge(nodes: seq<Node>, a: nat, b: nat) {
    a < |nodes| && exists j :: 0 <= j < |nodes[a].links| && LinkTo(nodes, nodes[a].links[j], b)
  }

  predicate LinkTo(nodes: seq<Node>, link: Link, b: nat) {
    !link.computed && NodeOf(nodes, link.value) == Some(b)
  }

  /** The path takes a link to its `k`th node. */
  ghost predicate StepAt(nodes: seq<Node>, p: seq<nat>, k: int)
    requires 0 < k < |p|
  {
    Edge(nodes, p[k - 1], p[k])
  }

  ghost predicate IsPath(nodes: seq<Node>, p: seq<nat>) {
    p != [] && p[0] < |nodes| && forall k :: 0 < k < |p| ==> StepAt(nodes, p, k)
  }

  predicate NoRepeat(p: seq<nat>) {
    forall i, j :: 0 <= i < j < |p| ==> p[i] != p[j]
  }

  lemma EdgeEnds(nodes: seq<Node>, a: nat, b: nat)
    requires Edge(nodes, a, b)
    ensures b < |nodes|
  {
  }

  lemma PathSnoc(nodes: seq<Node>, p: seq<nat>, b: nat)
    requires IsPath(nodes, p) && Edge(nodes, p[|p| - 1], b)
    ensures IsPath(nodes, p + [b])
  {
    hide Edge;
    var longer := p + [b];
    forall k | 0 < k < |longer|
      ensures StepAt(nodes, longer, k)
    {
      assert k < |p| ==> StepAt(nodes, p, k);
    }
  }

  lemma PathCons(nodes: seq<Node>, a: nat, p: seq<nat>)
    requires IsPath(nodes, p) && Edge(nodes, a, p[0])
    ensures IsPath(nodes, [a] + p)
  {
    var longer := [a] + p;
    assert a < |nodes|;
    hide Edge;
    forall k | 0 < k < |longer|
      ensures StepAt(nodes, longer, k)
    {
      assert k > 1 ==> StepAt(nodes, p, k - 1);
    }
  }

  lemma PathTail(nodes: seq<Node>, p: seq<nat>)
    requires IsPath(nodes, p) && |p| > 1
    ensures Edge(nodes, p[0], p[1]) && IsPath(nodes, p[1..])
  {
    assert StepAt(nodes, p, 1);
    EdgeEnds(nodes, p[0], p[1]);
    hide Edge;
    var rest := p[1..];
    forall k | 0 < k < |p| - 1
      ensures StepAt(nodes, rest, k)
    {
      assert StepAt(nodes, p, k + 1) && rest[k - 1] == p[k] && rest[k] == p[k + 1];
    }
  }

  lemma {:induction false} PathInside(nodes: seq<Node>, p: seq<nat>, k: nat)
    requires IsPath(nodes, p) && k < |p|
    ensures p[k] < |nodes|
  {
    if k > 0 {
      assert StepAt(nodes, p, k);
      EdgeEnds(nodes, p[k - 1], p[k]);
    }
  }

  /** A path that repeats no node is no longer than the flow. */
  lemma PathLength(nodes: seq<Node>, p: seq<nat>)
    requires IsPath(nodes, p) && NoRepeat(p)
    ensures |p| <= |nodes|
  {
    forall k | 0 <= k < |p|
      ensures p[k] < |nodes|
    {
      PathInside(nodes, p, k);
    }
    Pigeonhole(p, |nodes|);
  }

  lemma {:induction false} Pigeonhole(p: seq<nat>, n: nat)
    requires NoRepeat(p) && forall k :: 0 <= k < |p| ==> p[k] < n
    ensures |p| <= n
  {
    if p != [] {
      assert p[0] < n;
      if k :| 0 <= k < |p| && p[k] == n - 1 {
        var rest := p[..k] + p[k + 1..];
        Pigeonhole(rest, n - 1);
      } else if n > 0 {
        Pigeonhole(p, n - 1);
      }
    }
  }
}
