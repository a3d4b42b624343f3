/** The branches of a run read off the paths of the graph: which paths are listed, and how often. */
module FlowPaths {
  import opened Prelude
  import opened FlowModel
  import opened FlowValidate
  import opened FlowTree

  /** The paths from a node to the nodes without links, in depth-first order, of at most `fuel` nodes. */
  function Paths(nodes: seq<Node>, i: nat, fuel: nat): seq<seq<nat>>
    decreases fuel, 1, 0
  {
    if i >= |nodes| || fuel == 0 then []
    else if nodes[i].links == [] then [[i]]
    else LinkPaths(nodes, i, nodes[i].links, fuel)
  }

  function LinkPaths(nodes: seq<Node>, i: nat, links: seq<Link>, fuel: nat): seq<seq<nat>>
    requires fuel > 0
    decreases fuel, 0, |links|
  {
    if links == [] then []
    else
      var target := NodeOf(nodes, links[0].value);
      (if target.None? then [] else Extend(i, Paths(nodes, target.value, fuel - 1)))
        + LinkPaths(nodes, i, links[1..], fuel)
  }

  function Extend(i: nat, paths: seq<seq<nat>>): seq<seq<nat>> {
    if paths == [] then [] else [[i] + paths[0]] + Extend(i, paths[1..])
  }

  /** The commands along a path, each on the output of the one before. */
  function Along(env: Env, nodes: seq<Node>, path: seq<nat>, input: seq<byte>): seq<byte> {
    if path == [] then input
    else
      var output := Step(env, nodes, path[0], input).0;
      if output.None? then [] else Along(env, nodes, path[1..], output.value)
  }

  function AlongAll(env: Env, nodes: seq<Node>, paths: seq<seq<nat>>, input: seq<byte>): (r: seq<seq<byte>>)
    ensures |r| == |paths|
  {
    if paths == [] then [] else [Along(env, nodes, paths[0], input)] + AlongAll(env, nodes, paths[1..], input)
  }

  lemma {:induction false} AlongAllSplit(env: Env, nodes: seq<Node>, a: seq<seq<nat>>, b: seq<seq<nat>>,
                                         input: seq<byte>)
    ensures AlongAll(env, nodes, a + b, input) == AlongAll(env, nodes, a, input) + AlongAll(env, nodes, b, input)
  {
    hide Along;
    if a == [] {
      assert a + b == b;
    } else {
      assert (a + b)[1..] == a[1..] + b;
      AlongAllSplit(env, nodes, a[1..], b, input);
    }
  }

  lemma {:induction false} AlongExtended(env: Env, nodes: seq<Node>, i: nat, paths: seq<seq<nat>>, input: seq<byte>,
                                         output: seq<byte>)
    requires Step(env, nodes, i, input).0 == Some(output)
    ensures AlongAll(env, nodes, Extend(i, paths), input) == AlongAll(env, nodes, paths, output)
  {
    if paths != [] {
      hide Step;
      AlongExtended(env, nodes, i, paths[1..], input, output);
      assert ([i] + paths[0])[1..] == paths[0];
      assert Extend(i, paths)[1..] == Extend(i, paths[1..]);
    }
  }

  /** The branches of a successful run are the listed paths' commands composed, in order. */
  lemma {:induction false} TreeIsPaths(env: Env, nodes: seq<Node>, i: nat, input: seq<byte>, fuel: nat)
    requires PlainTargets(env) && PlainFlow(nodes) && Tree(env, nodes, i, input, fuel).ok
    ensures Tree(env, nodes, i, input, fuel).leaves == AlongAll(env, nodes, Paths(nodes, i, fuel), input)
    decreases fuel, 1, 0
  {
    var output := Step(env, nodes, i, input).0.value;
    if nodes[i].links == [] {
      hide Step;
      assert [i][1..] == [] && [[i]][1..] == [];
      assert Along(env, nodes, [i], input) == output;
    } else {
      PlainNode(nodes, i);
      LinksArePaths(env, nodes, i, nodes[i].links, input, output, fuel);
    }
  }

  lemma {:induction false} LinksArePaths(env: Env, nodes: seq<Node>, i: nat, links: seq<Link>,
                                        input: seq<byte>, output: seq<byte>, fuel: nat)
    requires PlainTargets(env) && PlainFlow(nodes) && AllPlain(links)
    requires fuel > 0 && Step(env, nodes, i, input).0 == Some(output)
             && Links(env, nodes, Some(i), links, output, fuel).ok
    ensures Links(env, nodes, Some(i), links, output, fuel).leaves
            == AlongAll(env, nodes, LinkPaths(nodes, i, links, fuel), input)
    decreases fuel, 0, |links|
  {
    hide Step;
    if links != [] {
      PlainTarget(env, nodes, Some(i), links[0], output, fuel - 1);
      var next := NodeOf(nodes, links[0].value).value;
      var paths := Paths(nodes, next, fuel - 1);
      TreeIsPaths(env, nodes, next, output, fuel - 1);
      LinksArePaths(env, nodes, i, links[1..], input, output, fuel);
      AlongExtended(env, nodes, i, paths, input, output);
      AlongAllSplit(env, nodes, Extend(i, paths), LinkPaths(nodes, i, links[1..], fuel), input);
    }
  }

  // ---------- which paths are listed, and how often ----------

  ghost predicate Literal(links: seq<Link>) {
    forall j :: 0 <= j < |links| ==> !links[j].computed
  }

  ghost predicate AllLiteral(nodes: seq<Node>) {
    forall i :: 0 <= i < |nodes| ==> Literal(nodes[i].links)
  }

  /** A path from node `i` that cannot be extended: its last node has no links. */
  ghost predicate Maximal(nodes: seq<Node>, i: nat, p: seq<nat>) {
    PathFrom(nodes, i, p) && p[|p| - 1] < |nodes| && nodes[p[|p| - 1]].links == []
  }

  /** The links of a list that lead to node `b`; a flow may repeat one. */
  function LinksBetween(nodes: seq<Node>, links: seq<Link>, b: nat): nat {
    if links == [] then 0
    else (if NodeOf(nodes, links[0].value) == Some(b) then 1 else 0) + LinksBetween(nodes, links[1..], b)
  }

  /** The ways to choose a link for every step of a path. */
  function Ways(nodes: seq<Node>, p: seq<nat>): nat
    decreases |p|
  {
    if |p| <= 1 then 1
    else if p[0] >= |nodes| then 0
    else LinksBetween(nodes, nodes[p[0]].links, p[1]) * Ways(nodes, p[1..])
  }

  lemma CountHead<T>(s: seq<T>, x: T)
    requires s != []
    ensures multiset(s)[x] == (if s[0] == x then 1 else 0) + multiset(s[1..])[x]
  {
    assert s == [s[0]] + s[1..];
  }

  lemma {:induction false} ExtendCount(i: nat, paths: seq<seq<nat>>, p: seq<nat>)
    ensures multiset(Extend(i, paths))[p] == if p != [] && p[0] == i then multiset(paths)[p[1..]] else 0
  {
    if paths != [] {
      var all := Extend(i, paths);
      ExtendCount(i, paths[1..], p);
      CountHead(all, p);
      CountHead(paths, if p == [] then [] else p[1..]);
      assert all[0] == [i] + paths[0] && all[1..] == Extend(i, paths[1..]);
      assert all[0][1..] == paths[0];
      assert p != [] && p[0] == i ==> p == [i] + p[1..];
    }
  }

  lemma SplitCount<T>(a: seq<T>, b: seq<T>, x: T)
    ensures multiset(a + b)[x] == multiset(a)[x] + multiset(b)[x]
  {
  }

  lemma {:induction false} LinkPathsHead(nodes: seq<Node>, i: nat, links: seq<Link>, fuel: nat, p: seq<nat>)
    requires fuel > 0 && multiset(LinkPaths(nodes, i, links, fuel))[p] > 0
    ensures p != [] && p[0] == i
    decreases |links|
  {
    hide Paths, Extend, NodeOf;
    var first := FirstPaths(nodes, i, links[0], fuel);
    SplitCount(first, LinkPaths(nodes, i, links[1..], fuel), p);
    var target := NodeOf(nodes, links[0].value);
    if target.Some? {
      ExtendCount(i, Paths(nodes, target.value, fuel - 1), p);
    }
    if multiset(first)[p] == 0 {
      LinkPathsHead(nodes, i, links[1..], fuel, p);
    }
  }

  lemma PathsHead(nodes: seq<Node>, i: nat, fuel: nat, p: seq<nat>)
    ensures multiset(Paths(nodes, i, fuel))[p] > 0 ==> p != [] && p[0] == i
  {
    if i < |nodes| && fuel > 0 && nodes[i].links != [] && multiset(Paths(nodes, i, fuel))[p] > 0 {
      LinkPathsHead(nodes, i, nodes[i].links, fuel, p);
    }
  }

  /** Every link to the second node of a path contributes the listings of the rest. */
  lemma {:induction false} LinkPathsCount(nodes: seq<Node>, i: nat, links: seq<Link>, fuel: nat, p: seq<nat>)
    requires fuel > 0
    ensures multiset(LinkPaths(nodes, i, links, fuel))[p]
         == if |p| < 2 || p[0] != i then 0
            else LinksBetween(nodes, links, p[1]) * multiset(Paths(nodes, p[1], fuel - 1))[p[1..]]
    decreases |links|
  {
    hide Paths, Extend, LinkPaths, LinksBetween, NodeOf;
    LinksUnfold(nodes, i, links, fuel, if |p| < 2 then 0 else p[1]);
    if links != [] {
      LinkPathsCount(nodes, i, links[1..], fuel, p);
      FirstCount(nodes, i, links[0], fuel, p);
      SplitCount(FirstPaths(nodes, i, links[0], fuel), LinkPaths(nodes, i, links[1..], fuel), p);
      if |p| >= 2 {
        Distribute(if NodeOf(nodes, links[0].value) == Some(p[1]) then 1 else 0, LinksBetween(nodes, links[1..], p[1]),
                   multiset(Paths(nodes, p[1], fuel - 1))[p[1..]]);
      }
    }
  }

  function FirstPaths(nodes: seq<Node>, i: nat, link: Link, fuel: nat): seq<seq<nat>>
    requires fuel > 0
  {
    var target := NodeOf(nodes, link.value);
    if target.None? then [] else Extend(i, Paths(nodes, target.value, fuel - 1))
  }

  lemma LinksUnfold(nodes: seq<Node>, i: nat, links: seq<Link>, fuel: nat, b: nat)
    requires fuel > 0
    ensures links == [] ==> LinkPaths(nodes, i, links, fuel) == [] && LinksBetween(nodes, links, b) == 0
    ensures links != [] ==>
              && LinkPaths(nodes, i, links, fuel)
                 == FirstPaths(nodes, i, links[0], fuel) + LinkPaths(nodes, i, links[1..], fuel)
              && LinksBetween(nodes, links, b)
                 == (if NodeOf(nodes, links[0].value) == Some(b) then 1 else 0) + LinksBetween(nodes, links[1..], b)
  {
    hide Paths, Extend, NodeOf;
  }

  lemma FirstCount(nodes: seq<Node>, i: nat, link: Link, fuel: nat, p: seq<nat>)
    requires fuel > 0
    ensures multiset(FirstPaths(nodes, i, link, fuel))[p]
         == if |p| >= 2 && p[0] == i && NodeOf(nodes, link.value) == Some(p[1])
            then multiset(Paths(nodes, p[1], fuel - 1))[p[1..]] else 0
  {
    hide Paths, Extend, NodeOf;
    var target := NodeOf(nodes, link.value);
    if target.Some? {
      ExtendCount(i, Paths(nodes, target.value, fuel - 1), p);
      if p != [] {
        PathsHead(nodes, target.value, fuel - 1, p[1..]);
      }
    }
  }

  lemma Distribute(a: nat, b: nat, c: nat)
    ensures (a + b) * c == a * c + b * c
  {
  }

  lemma {:induction false} LinksBetweenEdge(nodes: seq<Node>, links: seq<Link>, b: nat)
    ensures LinksBetween(nodes, links, b) > 0
            <==> exists j :: 0 <= j < |links| && NodeOf(nodes, links[j].value) == Some(b)
  {
    if links != [] {
      LinksBetweenEdge(nodes, links[1..], b);
      if j :| 0 <= j < |links| - 1 && NodeOf(nodes, links[1..][j].value) == Some(b) {
        assert links[1..][j] == links[j + 1];
      }
      if j :| 0 < j < |links| && NodeOf(nodes, links[j].value) == Some(b) {
        assert links[1..][j - 1] == links[j];
      }
    }
  }

  lemma EdgeIffLinks(nodes: seq<Node>, a: nat, b: nat)
    requires AllLiteral(nodes) && a < |nodes|
    ensures Edge(nodes, a, b) <==> LinksBetween(nodes, nodes[a].links, b) > 0
  {
    assert Literal(nodes[a].links);
    LinksBetweenEdge(nodes, nodes[a].links, b);
    if j :| 0 <= j < |nodes[a].links| && NodeOf(nodes, nodes[a].links[j].value) == Some(b) {
      assert LinkTo(nodes, nodes[a].links[j], b);
    }
  }

  lemma MaximalCons(nodes: seq<Node>, i: nat, p: seq<nat>)
    requires |p| >= 2 && p[0] == i
    ensures Maximal(nodes, i, p) <==> Edge(nodes, i, p[1]) && Maximal(nodes, p[1], p[1..])
  {
    hide Edge, StepAt;
    if Maximal(nodes, i, p) {
      PathTail(nodes, p);
    }
    if Edge(nodes, i, p[1]) && Maximal(nodes, p[1], p[1..]) {
      PathCons(nodes, i, p[1..]);
      assert [i] + p[1..] == p;
    }
  }

  lemma NoLinksNoEdge(nodes: seq<Node>, i: nat, p: seq<nat>)
    requires i < |nodes| && nodes[i].links == []
    ensures Maximal(nodes, i, p) <==> p == [i]
  {
    if |p| >= 2 && p[0] == i {
      MaximalCons(nodes, i, p);
    }
  }

  /**
   * The listed paths are exactly the maximal paths of the graph that fit, and each is listed once for every
   * way to choose its links.
   */
  lemma {:induction false} PathCount(nodes: seq<Node>, i: nat, fuel: nat, p: seq<nat>)
    requires AllLiteral(nodes)
    ensures multiset(Paths(nodes, i, fuel))[p] == if |p| <= fuel && Maximal(nodes, i, p) then Ways(nodes, p) else 0
    decreases fuel
  {
    hide AllLiteral, Edge, Maximal, Paths, Ways, LinkPaths, LinksBetween, NodeOf;
    PathsUnfold(nodes, i, fuel);
    if Maximal(nodes, i, p) {
      MaximalStarts(nodes, i, p);
    }
    WaysUnfold(nodes, p);
    if i < |nodes| && fuel > 0 {
      if nodes[i].links == [] {
        NoLinksNoEdge(nodes, i, p);
      } else {
        LinkPathsCount(nodes, i, nodes[i].links, fuel, p);
        if |p| >= 2 && p[0] == i {
          PathCount(nodes, p[1], fuel - 1, p[1..]);
          MaximalCons(nodes, i, p);
          EdgeIffLinks(nodes, i, p[1]);
        }
      }
    }
  }

  lemma PathsUnfold(nodes: seq<Node>, i: nat, fuel: nat)
    ensures Paths(nodes, i, fuel)
         == if i >= |nodes| || fuel == 0 then [] else if nodes[i].links == [] then [[i]]
            else LinkPaths(nodes, i, nodes[i].links, fuel)
  {
    hide LinkPaths;
  }

  lemma WaysUnfold(nodes: seq<Node>, p: seq<nat>)
    ensures |p| <= 1 ==> Ways(nodes, p) == 1
    ensures |p| >= 2 && p[0] < |nodes| ==>
            Ways(nodes, p) == LinksBetween(nodes, nodes[p[0]].links, p[1]) * Ways(nodes, p[1..])
  {
    hide LinksBetween;
  }

  lemma MaximalStarts(nodes: seq<Node>, i: nat, p: seq<nat>)
    requires Maximal(nodes, i, p)
    ensures p != [] && p[0] == i < |nodes| && (|p| == 1 ==> nodes[i].links == [])
  {
  }

  lemma {:induction false} WaysPositive(nodes: seq<Node>, i: nat, p: seq<nat>)
    requires AllLiteral(nodes) && Maximal(nodes, i, p)
    ensures Ways(nodes, p) > 0
    decreases |p|
  {
    hide AllLiteral, Edge, LinksBetween;
    if |p| >= 2 {
      MaximalCons(nodes, i, p);
      EdgeIffLinks(nodes, i, p[1]);
      WaysPositive(nodes, p[1], p[1..]);
      Positive(LinksBetween(nodes, nodes[i].links, p[1]), Ways(nodes, p[1..]));
    }
  }

  lemma Positive(a: nat, b: nat)
    requires a > 0 && b > 0
    ensures a * b > 0
  {
  }

  /** A path is listed exactly when it is a maximal path of the graph that fits. */
  lemma PathsAreMaximal(nodes: seq<Node>, i: nat, fuel: nat, p: seq<nat>)
    requires AllLiteral(nodes)
    ensures p in Paths(nodes, i, fuel) <==> |p| <= fuel && Maximal(nodes, i, p)
  {
    hide AllLiteral, Maximal, Paths, Ways;
    PathCount(nodes, i, fuel, p);
    if Maximal(nodes, i, p) {
      WaysPositive(nodes, i, p);
    }
    assert p in Paths(nodes, i, fuel) <==> multiset(Paths(nodes, i, fuel))[p] > 0;
  }

  /** No node has two links to one node. */
  ghost predicate DistinctLinks(nodes: seq<Node>) {
    forall a, b :: 0 <= a < |nodes| ==> LinksBetween(nodes, nodes[a].links, b) <= 1
  }

  lemma {:induction false} OneWay(nodes: seq<Node>, p: seq<nat>)
    requires DistinctLinks(nodes)
    ensures Ways(nodes, p) <= 1
    decreases |p|
  {
    hide LinksBetween;
    if |p| >= 2 && p[0] < |nodes| {
      OneWay(nodes, p[1..]);
      AtMostOne(LinksBetween(nodes, nodes[p[0]].links, p[1]), Ways(nodes, p[1..]));
    }
  }

  lemma AtMostOne(a: nat, b: nat)
    requires a <= 1 && b <= 1
    ensures a * b <= 1
  {
  }

  /** Without repeated links every maximal path that fits is listed exactly once. */
  lemma PathsOnce(nodes: seq<Node>, i: nat, fuel: nat, p: seq<nat>)
    requires AllLiteral(nodes) && DistinctLinks(nodes)
    ensures multiset(Paths(nodes, i, fuel))[p] == if |p| <= fuel && Maximal(nodes, i, p) then 1 else 0
  {
    hide AllLiteral, DistinctLinks, Maximal, Paths, Ways;
    PathCount(nodes, i, fuel, p);
    if Maximal(nodes, i, p) {
      WaysPositive(nodes, i, p);
      OneWay(nodes, p);
    }
  }

  lemma PlainIsLiteral(nodes: seq<Node>)
    requires PlainFlow(nodes)
    ensures AllLiteral(nodes)
  {
    forall i | 0 <= i < |nodes|
      ensures Literal(nodes[i].links)
    {
      PlainNode(nodes, i);
      assert forall j :: 0 <= j < |nodes[i].links| ==> Plain(nodes[i].links[j]);
    }
  }

  /** A repeated link makes two branches of one path. */
  lemma RepeatedLinkRepeatsPath()
    ensures var link, leaf := Link([98], false), Node([98], [], [], []);
            var nodes := [Node([97], [], [], [link, link]), leaf];
            Maximal(nodes, 0, [0, 1]) && multiset(Paths(nodes, 0, 2))[[0, 1]] == 2
  {
    var link, leaf := Link([98], false), Node([98], [], [], []);
    var node := Node([97], [], [], [link, link]);
    var nodes := [node, leaf];
    assert NodeOf(nodes, [98]) == Some(1);
    assert Literal(node.links) && Literal(leaf.links);
    assert [link, link][1..] == [link] && [link][1..] == [];
    assert LinksBetween(nodes, [link], 1) == 1;
    assert LinksBetween(nodes, [link, link], 1) == 2;
    assert AllLiteral(nodes);
    EdgeIffLinks(nodes, 0, 1);
    assert [0, 1][1..] == [1];
    NoLinksNoEdge(nodes, 1, [1]);
    MaximalCons(nodes, 0, [0, 1]);
    PathCount(nodes, 0, 2, [0, 1]);
  }
}
