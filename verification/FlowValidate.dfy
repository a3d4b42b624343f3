/**
 * kc_flow_validate_model: one depth-first walk accepts exactly the flows whose reached part is a sound,
 * acyclic graph.
 */
module FlowValidate {
  import opened Prelude
  import opened FlowModel

  /** A node is usable by itself: its `use` target and all its literal links exist. */
  ghost predicate Good(nodes: seq<Node>, a: nat) {
    && a < |nodes|
    && (nodes[a].use == [] || NodeOf(nodes, nodes[a].use).Some?)
    && forall j :: 0 <= j < |nodes[a].links| ==> LinkOk(nodes, nodes[a].links[j])
  }

  predicate LinkOk(nodes: seq<Node>, link: Link) {
    link.computed || NodeOf(nodes, link.value).Some?
  }

  ghost predicate FromRoots(nodes: seq<Node>, roots: seq<nat>, p: seq<nat>) {
    IsPath(nodes, p) && p[0] in roots
  }

  /** The graph reached from the roots is sound and acyclic: every path ends in a usable node and repeats none. */
  ghost predicate Sound(nodes: seq<Node>, roots: seq<nat>) {
    forall p :: FromRoots(nodes, roots, p) ==> Good(nodes, p[|p| - 1]) && NoRepeat(p)
  }

  /** A path that shows the reached graph is not sound. */
  ghost predicate Refutes(nodes: seq<Node>, root: nat, p: seq<nat>) {
    IsPath(nodes, p) && p[0] == root && !(Good(nodes, p[|p| - 1]) && NoRepeat(p))
  }

  /** Finished nodes, each after all the nodes it links to. */
  ghost predicate Closed(nodes: seq<Node>, order: seq<nat>) {
    if order == [] then true
    else
      var before, last := order[..|order| - 1], order[|order| - 1];
      && Closed(nodes, before) && last !in before && Good(nodes, last)
      && forall b :: Edge(nodes, last, b) ==> b in before
  }

  /** Every path that starts at a finished node stays among finished nodes and is sound. */
  lemma {:induction false} ClosedPaths(nodes: seq<Node>, order: seq<nat>, p: seq<nat>)
    requires Closed(nodes, order) && IsPath(nodes, p) && p[0] in order
    ensures NoRepeat(p) && Good(nodes, p[|p| - 1]) && forall k :: 0 <= k < |p| ==> p[k] in order
    decreases |order|
  {
    hide Edge, Good, StepAt;
    var before, last := order[..|order| - 1], order[|order| - 1];
    assert order == before + [last];
    if p[0] in before {
      ClosedPaths(nodes, before, p);
    } else if |p| > 1 {
      PathTail(nodes, p);
      var rest := p[1..];
      ClosedPaths(nodes, before, rest);
      assert forall k :: 0 < k < |p| ==> p[k] == rest[k - 1];
    }
  }

  /** The markers of the walk: on the current path, and seen (on the path or finished). */
  ghost predicate Marked(seen: seq<bool>, stack: seq<bool>, trail: seq<nat>, order: seq<nat>, n: nat) {
    && |seen| >= n && |stack| >= n
    && forall i :: 0 <= i < n ==> stack[i] == (i in trail) && seen[i] == (i in trail || i in order)
  }

  ghost function Unseen(seen: seq<bool>): set<nat> {
    set i: nat | i < |seen| && !seen[i]
  }

  /**
   * kc_flow_validate_walk at the end of `trail`. Success finishes the node; failure leaves a path from
   * the start of the trail that refutes the graph.
   */
  method Walk(nodes: seq<Node>, index: nat, seen: array<bool>, stack: array<bool>, ghost trail: seq<nat>,
              ghost order: seq<nat>)
    returns (ok: bool, ghost order': seq<nat>, ghost bad: seq<nat>)
    requires seen != stack && index < |nodes|
    requires Marked(seen[..], stack[..], trail, order, |nodes|)
    requires IsPath(nodes, trail + [index]) && NoRepeat(trail) && Closed(nodes, order)
    requires forall k :: 0 <= k < |trail| ==> trail[k] !in order
    modifies seen, stack
    ensures Unseen(seen[..]) <= old(Unseen(seen[..]))
    ensures ok ==> && Marked(seen[..], stack[..], trail, order', |nodes|) && Closed(nodes, order')
                   && order <= order' && index in order' && forall k :: 0 <= k < |trail| ==> trail[k] !in order'
    ensures !ok ==> Refutes(nodes, (trail + [index])[0], bad)
    decreases Unseen(seen[..]), 0
  {
    hide Edge, Good, Closed;
    ghost var here := trail + [index];
    order', bad := order, here;
    if stack[index] {
      Repeats(trail, index);
      return false, order, here;
    }
    if seen[index] {
      return true, order, bad;
    }
    seen[index] := true;
    stack[index] := true;
    Deeper(old(seen[..]), old(stack[..]), seen[..], stack[..], trail, order, index, |nodes|);
    var node := nodes[index];
    if node.use != [] {
      var target := Find(nodes, node.use);
      if target.None? {
        NotGood(nodes, index);
        return false, order, here;
      }
    }
    ok, order', bad := WalkLinks(nodes, index, seen, stack, here, order);
    if !ok {
      return false, order', bad;
    }
    ghost var marks := stack[..];
    stack[index] := false;
    Left(seen[..], marks, stack[..], trail, order', index, |nodes|);
    assert here[|trail|] == index && index !in order';
    Finish(nodes, trail, order', index);
    forall k | 0 <= k < |trail|
      ensures trail[k] !in order'
    {
      assert trail[k] == here[k];
    }
    order' := order' + [index];
    return true, order', bad;
  }

  /** The loop over the links of the node at the end of the current path. */
  method WalkLinks(nodes: seq<Node>, index: nat, seen: array<bool>, stack: array<bool>, ghost here: seq<nat>,
                   ghost order: seq<nat>)
    returns (ok: bool, ghost order': seq<nat>, ghost bad: seq<nat>)
    requires seen != stack && index < |nodes|
    requires Marked(seen[..], stack[..], here, order, |nodes|)
    requires IsPath(nodes, here) && here[|here| - 1] == index && NoRepeat(here) && Closed(nodes, order)
    requires forall k :: 0 <= k < |here| ==> here[k] !in order
    modifies seen, stack
    ensures Unseen(seen[..]) <= old(Unseen(seen[..]))
    ensures ok ==> && Marked(seen[..], stack[..], here, order', |nodes|) && Closed(nodes, order') && order <= order'
                   && (forall k :: 0 <= k < |here| ==> here[k] !in order')
                   && forall j :: 0 <= j < |nodes[index].links| ==> LinkDone(nodes, nodes[index].links[j], order')
    ensures !ok ==> Refutes(nodes, here[0], bad)
    decreases Unseen(seen[..]), 1
  {
    hide Edge, Good, Closed, Marked, Unseen;
    var links := nodes[index].links;
    order', bad := order, here;
    ghost var unseen := Unseen(seen[..]);
    var j := 0;
    while j < |links|
      invariant 0 <= j <= |links| && order <= order'
      invariant Marked(seen[..], stack[..], here, order', |nodes|) && Closed(nodes, order')
      invariant forall k :: 0 <= k < |here| ==> here[k] !in order'
      invariant forall i :: 0 <= i < j ==> LinkDone(nodes, links[i], order')
      invariant Unseen(seen[..]) <= unseen
    {
      if !links[j].computed {
        var child := Find(nodes, links[j].value);
        if child.None? {
          MissingLink(nodes, index, j);
          return false, order', here;
        }
        LinkEdge(nodes, index, j, child.value);
        PathSnoc(nodes, here, child.value);
        ghost var before := order';
        ok, order', bad := Walk(nodes, child.value, seen, stack, here, order');
        if !ok {
          return;
        }
        StillDone(nodes, links, j, before, order');
      }
      j := j + 1;
    }
    ok := true;
  }

  /** The target of a literal link is finished. */
  predicate LinkDone(nodes: seq<Node>, link: Link, order: seq<nat>) {
    !link.computed ==> var target := NodeOf(nodes, link.value); target.Some? && target.value in order
  }

  lemma StillDone(nodes: seq<Node>, links: seq<Link>, j: nat, before: seq<nat>, after: seq<nat>)
    requires j <= |links| && before <= after && forall i :: 0 <= i < j ==> LinkDone(nodes, links[i], before)
    ensures forall i :: 0 <= i < j ==> LinkDone(nodes, links[i], after)
  {
  }

  lemma MissingLink(nodes: seq<Node>, index: nat, j: nat)
    requires index < |nodes| && j < |nodes[index].links|
    requires !nodes[index].links[j].computed && NodeOf(nodes, nodes[index].links[j].value).None?
    ensures !Good(nodes, index)
  {
    assert !LinkOk(nodes, nodes[index].links[j]);
  }

  lemma LinkEdge(nodes: seq<Node>, index: nat, j: nat, b: nat)
    requires index < |nodes| && j < |nodes[index].links|
    requires !nodes[index].links[j].computed && NodeOf(nodes, nodes[index].links[j].value) == Some(b)
    ensures Edge(nodes, index, b) && b < |nodes|
  {
    assert LinkTo(nodes, nodes[index].links[j], b);
  }

  lemma Repeats(trail: seq<nat>, index: nat)
    requires index in trail
    ensures !NoRepeat(trail + [index])
  {
    var k :| 0 <= k < |trail| && trail[k] == index;
    var here := trail + [index];
    assert here[k] == here[|trail|];
  }

  lemma NotGood(nodes: seq<Node>, index: nat)
    requires index < |nodes| && nodes[index].use != [] && NodeOf(nodes, nodes[index].use).None?
    ensures !Good(nodes, index)
  {
  }

  /** Entering a node that was neither seen nor on the path. */
  lemma Deeper(seen: seq<bool>, stack: seq<bool>, seen': seq<bool>, stack': seq<bool>, trail: seq<nat>,
               order: seq<nat>, index: nat, n: nat)
    requires Marked(seen, stack, trail, order, n) && index < n && !seen[index]
    requires seen' == seen[index := true] && stack' == stack[index := true]
    requires NoRepeat(trail)
    ensures Marked(seen', stack', trail + [index], order, n) && NoRepeat(trail + [index])
    ensures index !in trail && index !in order && Unseen(seen') < Unseen(seen)
  {
    assert index in Unseen(seen) && index !in Unseen(seen');
  }

  lemma Finish(nodes: seq<Node>, trail: seq<nat>, order: seq<nat>, index: nat)
    requires index < |nodes| && Closed(nodes, order) && index !in order
    requires nodes[index].use != [] ==> NodeOf(nodes, nodes[index].use).Some?
    requires forall j :: 0 <= j < |nodes[index].links| ==> LinkDone(nodes, nodes[index].links[j], order)
    ensures Closed(nodes, order + [index])
  {
    hide Closed;
    forall j | 0 <= j < |nodes[index].links|
      ensures LinkOk(nodes, nodes[index].links[j])
    {
      assert LinkDone(nodes, nodes[index].links[j], order);
    }
    forall b | Edge(nodes, index, b)
      ensures b in order
    {
      var j :| 0 <= j < |nodes[index].links| && LinkTo(nodes, nodes[index].links[j], b);
      assert LinkDone(nodes, nodes[index].links[j], order);
    }
    ClosedSnoc(nodes, order, index);
  }

  lemma ClosedSnoc(nodes: seq<Node>, order: seq<nat>, last: nat)
    requires Closed(nodes, order) && last !in order && Good(nodes, last)
    requires forall b :: Edge(nodes, last, b) ==> b in order
    ensures Closed(nodes, order + [last])
  {
    hide Edge, Good;
    assert (order + [last])[..|order|] == order;
  }

  /** Leaving a node: off the path, finished. */
  lemma Left(seen: seq<bool>, stack: seq<bool>, stack': seq<bool>, trail: seq<nat>, order: seq<nat>, index: nat, n: nat)
    requires Marked(seen, stack, trail + [index], order, n) && index < n && index !in trail
    requires stack' == stack[index := false]
    ensures Marked(seen, stack', trail, order + [index], n)
  {
  }

  // ---------- the whole flow ----------

  /** The nodes validation and running start from; None when one is missing. */
  function Roots(nodes: seq<Node>, entries: seq<Link>): Option<seq<nat>> {
    if entries == [] then Some([])
    else
      var last := entries[|entries| - 1];
      var before := Roots(nodes, entries[..|entries| - 1]);
      if before.None? then None
      else if last.computed then before
      else
        var target := NodeOf(nodes, last.value);
        if target.None? then None else Some(before.value + [target.value])
  }

  function Starts(nodes: seq<Node>, entries: seq<Link>, entry: Option<seq<byte>>): Option<seq<nat>> {
    match entry
    case Some(ref) => var target := NodeOf(nodes, ref); if target.None? then None else Some([target.value])
    case None => Roots(nodes, entries)
  }

  /** Where a run of all entries starts: every literal entry names a node, and those nodes are the starts. */
  lemma {:induction false} RootsMean(nodes: seq<Node>, entries: seq<Link>)
    ensures Roots(nodes, entries) == None
            <==> exists k :: 0 <= k < |entries| && !entries[k].computed
                             && forall i :: 0 <= i < |nodes| ==> nodes[i].ref != entries[k].value
    ensures Roots(nodes, entries).Some? ==>
              forall b :: b in Roots(nodes, entries).value
                          <==> exists k :: 0 <= k < |entries| && !entries[k].computed
                                           && IsFirstRef(nodes, entries[k].value, b)
  {
    if entries != [] {
      var last, before := entries[|entries| - 1], entries[..|entries| - 1];
      RootsMean(nodes, before);
      assert entries == before + [last];
      assert forall k :: 0 <= k < |before| ==> entries[k] == before[k];
    }
  }

  /** What the validator promises. */
  ghost predicate Valid(nodes: seq<Node>, entries: seq<Link>, entry: Option<seq<byte>>) {
    var starts := Starts(nodes, entries, entry);
    starts.Some? && Sound(nodes, starts.value)
  }

  /**
   * What the validator promises, written out: the start nodes exist, and on every path from them no node comes
   * twice, `use` names a node where there is one, and so does every literal link.
   */
  lemma ValidMeans(nodes: seq<Node>, entries: seq<Link>, entry: Option<seq<byte>>)
    ensures Valid(nodes, entries, entry)
            <==> && Starts(nodes, entries, entry).Some?
                 && forall p :: IsPath(nodes, p) && p[0] in Starts(nodes, entries, entry).value ==>
                      var a := p[|p| - 1];
                      && a < |nodes| && (forall i, j :: 0 <= i < j < |p| ==> p[i] != p[j])
                      && (nodes[a].use == [] || exists i :: 0 <= i < |nodes| && nodes[i].ref == nodes[a].use)
                      && (forall j :: 0 <= j < |nodes[a].links| && !nodes[a].links[j].computed ==>
                            exists i :: 0 <= i < |nodes| && nodes[i].ref == nodes[a].links[j].value)
  {
    hide IsPath, Starts;
    forall a | 0 <= a < |nodes|
      ensures Good(nodes, a)
              <==> && (nodes[a].use == [] || exists i :: 0 <= i < |nodes| && nodes[i].ref == nodes[a].use)
                   && (forall j :: 0 <= j < |nodes[a].links| && !nodes[a].links[j].computed ==>
                         exists i :: 0 <= i < |nodes| && nodes[i].ref == nodes[a].links[j].value)
    {
      GoodMeans(nodes, a);
    }
    hide Good;
  }

  lemma GoodMeans(nodes: seq<Node>, a: nat)
    requires a < |nodes|
    ensures Good(nodes, a)
            <==> && (nodes[a].use == [] || exists i :: 0 <= i < |nodes| && nodes[i].ref == nodes[a].use)
                 && (forall j :: 0 <= j < |nodes[a].links| && !nodes[a].links[j].computed ==>
                       exists i :: 0 <= i < |nodes| && nodes[i].ref == nodes[a].links[j].value)
  {
  }

  /** A finished order that contains the roots proves soundness. */
  lemma ClosedIsSound(nodes: seq<Node>, order: seq<nat>, roots: seq<nat>)
    requires Closed(nodes, order) && forall k :: 0 <= k < |roots| ==> roots[k] in order
    ensures Sound(nodes, roots)
  {
    hide Closed, NoRepeat, Good;
    forall p | FromRoots(nodes, roots, p)
      ensures Good(nodes, p[|p| - 1]) && NoRepeat(p)
    {
      ClosedPaths(nodes, order, p);
    }
  }

  lemma RefutedIsUnsound(nodes: seq<Node>, roots: seq<nat>, root: nat, p: seq<nat>)
    requires root in roots && Refutes(nodes, root, p)
    ensures !Sound(nodes, roots)
  {
    hide Good, NoRepeat;
    assert FromRoots(nodes, roots, p);
  }

  lemma {:induction false} RootsGrow(nodes: seq<Node>, entries: seq<Link>, i: nat)
    requires i <= |entries| && Roots(nodes, entries).Some?
    ensures Roots(nodes, entries[..i]).Some? && Roots(nodes, entries[..i]).value <= Roots(nodes, entries).value
  {
    var n := |entries|;
    if i < n {
      RootsGrow(nodes, entries[..n - 1], i);
      assert entries[..n - 1][..i] == entries[..i];
    } else {
      assert entries[..i] == entries;
    }
  }

  /** One root: the walk with an empty path. */
  method WalkRoot(nodes: seq<Node>, root: nat, seen: array<bool>, stack: array<bool>, ghost order: seq<nat>)
    returns (ok: bool, ghost order': seq<nat>, ghost bad: seq<nat>)
    requires seen != stack && root < |nodes|
    requires Marked(seen[..], stack[..], [], order, |nodes|) && Closed(nodes, order)
    modifies seen, stack
    ensures ok ==>
            Marked(seen[..], stack[..], [], order', |nodes|) && Closed(nodes, order') && order <= order'
            && root in order'
    ensures !ok ==> Refutes(nodes, root, bad)
  {
    hide Closed, Marked, Refutes;
    assert [] + [root] == [root];
    ok, order', bad := Walk(nodes, root, seen, stack, [], order);
  }

  /** kc_flow_validate_model */
  method ValidateModel(nodes: seq<Node>, entries: seq<Link>, entry: Option<seq<byte>>) returns (ok: bool)
    requires |nodes| <= MAX_NODES
    ensures ok <==> Valid(nodes, entries, entry)
  {
    hide Closed, Marked, Sound, Refutes;
    var seen := new bool[MAX_NODES](_ => false);
    var stack := new bool[MAX_NODES](_ => false);
    ghost var order: seq<nat> := [];
    ghost var bad;
    Unmarked(nodes, seen[..], stack[..]);
    if entry.Some? {
      var node := Find(nodes, entry.value);
      if node.None? {
        return false;
      }
      ok, order, bad := WalkRoot(nodes, node.value, seen, stack, order);
      if ok {
        ClosedIsSound(nodes, order, [node.value]);
      } else {
        RefutedIsUnsound(nodes, [node.value], node.value, bad);
      }
      return;
    }
    ok := ValidateEntries(nodes, entries, seen, stack);
  }

  lemma Unmarked(nodes: seq<Node>, seen: seq<bool>, stack: seq<bool>)
    requires |seen| == |stack| >= |nodes| && forall i :: 0 <= i < |seen| ==> !seen[i] && !stack[i]
    ensures Marked(seen, stack, [], [], |nodes|) && Closed(nodes, [])
  {
  }

  /** The loop over the entries of the flow. */
  method ValidateEntries(nodes: seq<Node>, entries: seq<Link>, seen: array<bool>, stack: array<bool>) returns (ok: bool)
    requires seen != stack && Marked(seen[..], stack[..], [], [], |nodes|)
    modifies seen, stack
    ensures ok <==> Roots(nodes, entries).Some? && Sound(nodes, Roots(nodes, entries).value)
  {
    hide Closed, Marked, Sound, Refutes;
    ghost var order: seq<nat> := [];
    ghost var roots: seq<nat> := [];
    ghost var bad;
    var i := 0;
    assert Closed(nodes, []) by { ClosedNothing(nodes); }
    assert entries[..0] == [];
    while i < |entries|
      invariant 0 <= i <= |entries| && Roots(nodes, entries[..i]) == Some(roots)
      invariant Marked(seen[..], stack[..], [], order, |nodes|) && Closed(nodes, order)
      invariant forall k :: 0 <= k < |roots| ==> roots[k] in order
    {
      RootsStep(nodes, entries, i);
      var e := entries[i];
      if !e.computed {
        var node := Find(nodes, e.value);
        if node.None? {
          MissingRoot(nodes, entries, i);
          return false;
        }
        ok, order, bad := WalkRoot(nodes, node.value, seen, stack, order);
        roots := roots + [node.value];
        if !ok {
          UnsoundEntries(nodes, entries, i, roots, bad);
          return false;
        }
      }
      i := i + 1;
    }
    assert entries[..i] == entries;
    ClosedIsSound(nodes, order, roots);
    ok := true;
  }

  lemma ClosedNothing(nodes: seq<Node>)
    ensures Closed(nodes, [])
  {
  }

  lemma RootsStep(nodes: seq<Node>, entries: seq<Link>, i: nat)
    requires i < |entries| && Roots(nodes, entries[..i]).Some?
    ensures var before, e := Roots(nodes, entries[..i]).value, entries[i];
            Roots(nodes, entries[..i + 1])
            == if e.computed then Some(before)
               else if NodeOf(nodes, e.value).None? then None
               else Some(before + [NodeOf(nodes, e.value).value])
  {
    assert entries[..i + 1][..i] == entries[..i];
  }

  lemma MissingRoot(nodes: seq<Node>, entries: seq<Link>, i: nat)
    requires i < |entries| && Roots(nodes, entries[..i + 1]).None?
    ensures Roots(nodes, entries).None?
  {
    if Roots(nodes, entries).Some? {
      RootsGrow(nodes, entries, i + 1);
      assert false;
    }
  }

  lemma UnsoundEntries(nodes: seq<Node>, entries: seq<Link>, i: nat, roots: seq<nat>, bad: seq<nat>)
    requires i < |entries| && Roots(nodes, entries[..i + 1]) == Some(roots) && roots != []
    requires Refutes(nodes, roots[|roots| - 1], bad)
    ensures Roots(nodes, entries).Some? ==> !Sound(nodes, Roots(nodes, entries).value)
  {
    hide Refutes, Sound;
    if Roots(nodes, entries).Some? {
      RootsGrow(nodes, entries, i + 1);
      RefutedIsUnsound(nodes, Roots(nodes, entries).value, roots[|roots| - 1], bad);
    }
  }
}
