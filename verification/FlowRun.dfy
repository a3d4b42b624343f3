/** kc_flow_run_node and kc_flow_run_loaded: depth-first execution of a flow under cooperative stop. */
module FlowRun {
  import opened Prelude
  import opened FlowModel
  import opened FlowValidate
  import opened FlowTree
  import opened FlowPaths

  datatype Status = Ok | Error | Stopped

  /** What a run does in order: it looks at the stop flag, and it starts commands. */
  datatype Event = Check(stopped: bool) | Started(command: Command)

  /** Once requested, a stop stays requested. */
  ghost predicate Monotone(stops: nat -> bool) {
    forall s, t :: s <= t && stops(s) ==> stops(t)
  }

  /**
   * Every look at the flag, at its place in the run, sees what was requested by then, and a command starts
   * only right after a look that saw no request.
   */
  ghost predicate Disciplined(events: seq<Event>, stops: nat -> bool) {
    forall t :: 0 <= t < |events| ==> WellTimed(events, stops, t)
  }

  predicate WellTimed(events: seq<Event>, stops: nat -> bool, t: nat)
    requires t < |events|
  {
    match events[t]
    case Check(stopped) => stopped == stops(t)
    case Started(_) => t > 0 && events[t - 1] == Check(false)
  }

  function Commands(events: seq<Event>): seq<Command> {
    if events == [] then []
    else
      var last := events[|events| - 1];
      Commands(events[..|events| - 1]) + if last.Started? then [last.command] else []
  }

  lemma CommandsSnoc(events: seq<Event>, e: Event)
    ensures Commands(events + [e]) == Commands(events) + if e.Started? then [e.command] else []
  {
    assert (events + [e])[..|events|] == events;
  }

  /** At most one command starts at or after the moment the stop is requested. */
  lemma AtMostOneAfterRequest(events: seq<Event>, stops: nat -> bool, s: nat, t: nat)
    requires Monotone(stops) && Disciplined(events, stops)
    requires s < |events| && t < |events| && events[s].Started? && events[t].Started? && stops(s) && stops(t)
    ensures s == t
  {
    assert WellTimed(events, stops, s) && WellTimed(events, stops, t);
    assert WellTimed(events, stops, s - 1) && WellTimed(events, stops, t - 1);
    assert !stops(s - 1) && !stops(t - 1);
  }

  /** The snapshot of one run: its stop flag as a schedule over the events of the run. */
  class Run {
    const stops: nat -> bool
    var events: seq<Event>

    ghost predicate Valid()
      reads this
    {
      Disciplined(events, stops)
    }

    constructor (stops: nat -> bool)
      ensures Valid() && events == [] && this.stops == stops
    {
      this.stops, events := stops, [];
    }

    /** kc_flow_is_stopped */
    method IsStopped() returns (stopped: bool)
      requires Valid()
      modifies this
      ensures Valid() && events == old(events) + [Check(stopped)]
      ensures stopped ==> stops(|old(events)|)
      ensures Commands(events) == old(Commands(events))
    {
      stopped := stops(|events|);
      CommandsSnoc(events, Check(stopped));
      ghost var before := events;
      events := events + [Check(stopped)];
      forall t | 0 <= t < |events|
        ensures WellTimed(events, stops, t)
      {
        assert t < |before| ==> WellTimed(before, stops, t);
      }
    }

    /** kc_flow_run_command, right after the flag was seen clear. */
    method Start(env: Env, command: Command) returns (output: Option<seq<byte>>)
      requires Valid() && events != [] && events[|events| - 1] == Check(false)
      modifies this
      ensures Valid() && events == old(events) + [Started(command)]
      ensures Commands(events) == old(Commands(events)) + [command]
      ensures output == env.shell(command)
    {
      CommandsSnoc(events, Started(command));
      ghost var before := events;
      events := events + [Started(command)];
      forall t | 0 <= t < |events|
        ensures WellTimed(events, stops, t)
      {
        assert t < |before| ==> WellTimed(before, stops, t);
      }
      output := env.shell(command);
    }
  }

  /** kc_flow_branches_t */
  class Branches {
    var items: seq<seq<byte>>

    constructor ()
      ensures items == []
    {
      items := [];
    }

    /** kc_flow_branches_take */
    method Append(data: seq<byte>) returns (ok: bool)
      modifies this
      ensures ok <==> |old(items)| < 2048
      ensures items == if ok then old(items) + [data] else old(items)
    {
      if |items| >= MAX_BRANCHES {
        return false;
      }
      items := items + [data];
      ok := true;
    }
  }

  /**
   * How a part of a run went compared with the same part without stop requests: `done` are the commands
   * it started and `before` and `after` the branches around it.
   */
  ghost predicate Follows(rc: Status, whole: Outcome, done: seq<Command>, before: seq<seq<byte>>,
                          after: seq<seq<byte>>)
  {
    && done <= whole.commands
    && (rc == Ok ==> whole.ok && after == before + whole.leaves && done == whole.commands && |after| <= MAX_BRANCHES)
    && (rc == Error ==> (!whole.ok && done == whole.commands) || |before| + |whole.leaves| > MAX_BRANCHES)
  }

  /** The last thing a stopped run did was to see the request. */
  ghost predicate StopSeen(rc: Status, events: seq<Event>) {
    rc == Stopped ==> events != [] && events[|events| - 1] == Check(true)
  }

  /** kc_flow_node_behavior: the end of the node's `use` chain, or none when no chain within the guard ends. */
  method NodeBehavior(nodes: seq<Node>, i: nat, depth: nat) returns (r: Option<nat>)
    ensures r == Behavior(nodes, i, depth)
    ensures forall b: nat :: r == Some(b) <==> exists c :: UseChain(nodes, i, c, b) && |c| + depth <= MAX_DEPTH + 1
    decreases MAX_DEPTH + 1 - depth
  {
    hide UseChain;
    forall b: nat
      ensures Behavior(nodes, i, depth) == Some(b)
              <==> exists c :: UseChain(nodes, i, c, b) && |c| + depth <= MAX_DEPTH + 1
    {
      BehaviorIsChain(nodes, i, depth, b);
    }
    if i >= |nodes| || depth > MAX_DEPTH {
      return None;
    }
    if nodes[i].use == [] {
      return Some(i);
    }
    var target := Find(nodes, nodes[i].use);
    if target.None? {
      return None;
    }
    r := NodeBehavior(nodes, target.value, depth + 1);
  }

  /** The node's own command: behavior, data, expansion, a look at the flag, the command, another look. */
  method Execute(run: Run, env: Env, nodes: seq<Node>, i: nat, input: seq<byte>)
    returns (rc: Status, output: seq<byte>, ghost done: seq<Command>)
    requires run.Valid() && i < |nodes|
    modifies run
    ensures run.Valid() && old(run.events) <= run.events && Commands(run.events) == old(Commands(run.events)) + done
    ensures StopSeen(rc, run.events)
    ensures var (result, commands) := Step(env, nodes, i, input);
            && done <= commands
            && (rc == Ok ==> result == Some(output) && done == commands)
            && (rc == Error ==> result.None? && done == commands)
    ensures (forall c: seq<nat>, b: nat :: !BehavesAs(nodes, i, c, b)) ==> rc == Error && done == []
    ensures forall c: seq<nat>, b: nat :: BehavesAs(nodes, i, c, b) ==>
              && b < |nodes|
              && (!env.collects(i) ==> rc == Error && done == [])
              && (env.collects(i) && nodes[b].exec == [] ==> rc == Ok && output == input && done == [])
              && (env.collects(i) && nodes[b].exec != [] && rc == Ok ==>
                    && env.expand(i).Some? && done == [Command(i, env.expand(i).value, input)]
                    && env.shell(Command(i, env.expand(i).value, input)) == Some(output))
              && (env.collects(i) && nodes[b].exec != [] && rc == Error ==>
                    || (env.expand(i) == None && done == [])
                    || (&& env.expand(i).Some? && done == [Command(i, env.expand(i).value, input)]
                        && env.shell(Command(i, env.expand(i).value, input)) == None))
  {
    ChainsLead(nodes, i);
    hide Run.Valid, Behavior, Commands, BehavesAs;
    output, done := input, [];
    var behavior := NodeBehavior(nodes, i, 0);
    if behavior.None? {
      return Error, output, done;
    }
    if !env.collects(i) {
      return Error, output, done;
    }
    if nodes[behavior.value].exec == [] {
      return Ok, output, done;
    }
    var stopped := run.IsStopped();
    if stopped {
      return Stopped, output, done;
    }
    var text := env.expand(i);
    if text.None? {
      return Error, output, done;
    }
    stopped := run.IsStopped();
    if stopped {
      return Stopped, output, done;
    }
    var command := Command(i, text.value, input);
    var result := run.Start(env, command);
    done := [command];
    if result.None? {
      return Error, output, done;
    }
    stopped := run.IsStopped();
    if stopped {
      return Stopped, output, done;
    }
    return Ok, result.value, done;
  }

  /** kc_flow_run_node, at recursion depth `depth`. */
  method RunNode(run: Run, env: Env, nodes: seq<Node>, i: nat, input: seq<byte>, outputs: Branches, depth: nat)
    returns (rc: Status, ghost done: seq<Command>)
    requires run.Valid() && i < |nodes| && depth <= MAX_DEPTH + 1 && |outputs.items| <= MAX_BRANCHES
    modifies run, outputs
    ensures run.Valid() && old(run.events) <= run.events && Commands(run.events) == old(Commands(run.events)) + done
    ensures StopSeen(rc, run.events) && |outputs.items| <= MAX_BRANCHES
    ensures Follows(rc, Tree(env, nodes, i, input, MAX_DEPTH + 1 - depth), done, old(outputs.items), outputs.items)
    decreases MAX_DEPTH + 1 - depth, 1, 0
  {
    hide Run.Valid, Step, Links, Commands;
    done := [];
    var stopped := run.IsStopped();
    if stopped {
      return Stopped, done;
    }
    if depth > MAX_DEPTH {
      return Error, done;
    }
    var output;
    rc, output, done := Execute(run, env, nodes, i, input);
    if rc != Ok {
      return;
    }
    ghost var own := done;
    if nodes[i].links != [] {
      ghost var rest;
      rc, rest := RunLinks(run, env, nodes, Some(i), nodes[i].links, output, outputs, depth + 1);
      done := own + rest;
    } else {
      stopped := run.IsStopped();
      if stopped {
        return Stopped, done;
      }
      var ok := outputs.Append(output);
      rc := if ok then Ok else Error;
    }
  }

  /** The whole of a list of links as what is done and what is left. */
  ghost predicate Split(whole: Outcome, leaves: seq<seq<byte>>, commands: seq<Command>, left: Outcome) {
    whole == Outcome(left.ok, leaves + left.leaves, commands + left.commands)
  }

  lemma LinksStep(env: Env, nodes: seq<Node>, owner: Option<nat>, links: seq<Link>, input: seq<byte>, fuel: nat,
                  whole: Outcome, leaves: seq<seq<byte>>, commands: seq<Command>)
    requires fuel > 0 && links != [] && Split(whole, leaves, commands, Links(env, nodes, owner, links, input, fuel))
    ensures var next := Target(env, nodes, owner, links[0], input, fuel - 1);
            && (next.ok ==>
                 Split(whole, leaves + next.leaves, commands + next.commands,
                       Links(env, nodes, owner, links[1..], input, fuel)))
            && (!next.ok ==>
                 !whole.ok && whole.leaves == leaves + next.leaves && whole.commands == commands + next.commands)
            && commands + next.commands <= whole.commands && |leaves| + |next.leaves| <= |whole.leaves|
  {
    hide Target;
  }

  /** After one link: the whole list is followed as far as this link goes. */
  lemma LinkFollows(rc: Status, next: Outcome, part: seq<Command>, whole: Outcome, leaves: seq<seq<byte>>,
                    commands: seq<Command>, before: seq<seq<byte>>, middle: seq<seq<byte>>, after: seq<seq<byte>>)
    requires Follows(rc, next, part, middle, after) && middle == before + leaves
    requires commands + next.commands <= whole.commands && |leaves| + |next.leaves| <= |whole.leaves|
    requires !next.ok ==> !whole.ok && whole.commands == commands + next.commands
    requires rc != Ok
    ensures Follows(rc, whole, commands + part, before, after)
  {
  }

  /** After a link that succeeded. */
  lemma LinkDone(env: Env, nodes: seq<Node>, owner: Option<nat>, links: seq<Link>, input: seq<byte>, fuel: nat,
                 whole: Outcome, leaves: seq<seq<byte>>, commands: seq<Command>, part: seq<Command>,
                 before: seq<seq<byte>>, middle: seq<seq<byte>>, after: seq<seq<byte>>)
    requires fuel > 0 && links != [] && Split(whole, leaves, commands, Links(env, nodes, owner, links, input, fuel))
    requires Follows(Ok, Target(env, nodes, owner, links[0], input, fuel - 1), part, middle, after)
             && middle == before + leaves
    ensures var next := Target(env, nodes, owner, links[0], input, fuel - 1);
            && Split(whole, leaves + next.leaves, commands + part, Links(env, nodes, owner, links[1..], input, fuel))
            && after == before + (leaves + next.leaves)
  {
    hide Links, Target, Split;
    LinksStep(env, nodes, owner, links, input, fuel, whole, leaves, commands);
  }

  /** After a link that did not. */
  lemma LinkEnds(rc: Status, env: Env, nodes: seq<Node>, owner: Option<nat>, links: seq<Link>, input: seq<byte>,
                 fuel: nat, whole: Outcome, leaves: seq<seq<byte>>, commands: seq<Command>, part: seq<Command>,
                 before: seq<seq<byte>>, middle: seq<seq<byte>>, after: seq<seq<byte>>)
    requires fuel > 0 && links != [] && Split(whole, leaves, commands, Links(env, nodes, owner, links, input, fuel))
    requires Follows(rc, Target(env, nodes, owner, links[0], input, fuel - 1), part, middle, after)
             && middle == before + leaves
    requires rc != Ok
    ensures Follows(rc, whole, commands + part, before, after)
  {
    hide Links, Target, Split, Follows;
    LinksStep(env, nodes, owner, links, input, fuel, whole, leaves, commands);
    LinkFollows(rc, Target(env, nodes, owner, links[0], input, fuel - 1), part, whole, leaves, commands,
                before, middle, after);
  }

  lemma AllLinksDone(env: Env, nodes: seq<Node>, owner: Option<nat>, links: seq<Link>, input: seq<byte>, fuel: nat,
                     whole: Outcome, leaves: seq<seq<byte>>, commands: seq<Command>, before: seq<seq<byte>>)
    requires fuel > 0 && Split(whole, leaves, commands, Links(env, nodes, owner, links[|links|..], input, fuel))
    requires |before + leaves| <= MAX_BRANCHES
    ensures Follows(Ok, whole, commands, before, before + leaves)
  {
    AllSplit(env, nodes, owner, links, input, fuel, whole, leaves, commands);
  }

  lemma MoreCommands(start: seq<Event>, events: seq<Event>, done: seq<Command>, part: seq<Command>)
    requires Commands(events) == Commands(start) + done + part
    ensures Commands(events) == Commands(start) + (done + part)
  {
  }

  /** One link or entry: a look at the flag, then the run of its target at depth `depth`. */
  method RunLink(run: Run, env: Env, nodes: seq<Node>, owner: Option<nat>, link: Link, input: seq<byte>,
                 outputs: Branches, depth: nat)
    returns (rc: Status, ghost done: seq<Command>)
    requires run.Valid() && depth <= MAX_DEPTH + 1 && |outputs.items| <= MAX_BRANCHES
    modifies run, outputs
    ensures run.Valid() && old(run.events) <= run.events && Commands(run.events) == old(Commands(run.events)) + done
    ensures StopSeen(rc, run.events) && |outputs.items| <= MAX_BRANCHES
    ensures Follows(rc, Target(env, nodes, owner, link, input, MAX_DEPTH + 1 - depth), done,
                    old(outputs.items), outputs.items)
    decreases MAX_DEPTH + 2 - depth, 0, 0
  {
    hide Run.Valid, Tree;
    done := [];
    var stopped := run.IsStopped();
    if stopped {
      return Stopped, done;
    }
    var ref := env.target(owner, link, input);
    if ref.None? || ref.value == [] {
      return Error, done;
    }
    var next := Find(nodes, ref.value);
    if next.None? {
      return Error, done;
    }
    rc, done := RunNode(run, env, nodes, next.value, input, outputs, depth);
  }

  /** The loop over the links of a node, or over the entries of the flow, whose targets run at depth `depth`. */
  method RunLinks(run: Run, env: Env, nodes: seq<Node>, owner: Option<nat>, links: seq<Link>, input: seq<byte>,
                  outputs: Branches, depth: nat)
    returns (rc: Status, ghost done: seq<Command>)
    requires run.Valid() && depth <= MAX_DEPTH + 1 && |outputs.items| <= MAX_BRANCHES
    modifies run, outputs
    ensures run.Valid() && old(run.events) <= run.events && Commands(run.events) == old(Commands(run.events)) + done
    ensures StopSeen(rc, run.events) && |outputs.items| <= MAX_BRANCHES
    ensures Follows(rc, Links(env, nodes, owner, links, input, MAX_DEPTH + 2 - depth), done,
                    old(outputs.items), outputs.items)
    decreases MAX_DEPTH + 2 - depth, 0, 1
  {
    hide Run.Valid, Links, Target, Split, StopSeen, Follows, Commands;
    var fuel := MAX_DEPTH + 2 - depth;
    ghost var whole := Links(env, nodes, owner, links, input, fuel);
    ghost var start, before := run.events, outputs.items;
    ghost var leaves: seq<seq<byte>> := [];
    done := [];
    var j := 0;
    assert links[0..] == links;
    NothingSplit(whole);
    while j < |links|
      invariant 0 <= j <= |links| && run.Valid() && |outputs.items| <= MAX_BRANCHES
      invariant start <= run.events && Commands(run.events) == Commands(start) + done
      invariant outputs.items == before + leaves
      invariant Split(whole, leaves, done, Links(env, nodes, owner, links[j..], input, fuel))
    {
      assert links[j..][0] == links[j] && links[j..][1..] == links[j + 1..];
      ghost var next, middle := Target(env, nodes, owner, links[j], input, fuel - 1), outputs.items;
      ghost var part;
      rc, part := RunLink(run, env, nodes, owner, links[j], input, outputs, depth);
      MoreCommands(start, run.events, done, part);
      if rc != Ok {
        LinkEnds(rc, env, nodes, owner, links[j..], input, fuel, whole, leaves, done, part, before, middle,
          outputs.items);
        done := done + part;
        return;
      }
      LinkDone(env, nodes, owner, links[j..], input, fuel, whole, leaves, done, part, before, middle, outputs.items);
      leaves, done := leaves + next.leaves, done + part;
      j := j + 1;
    }
    AllLinksDone(env, nodes, owner, links, input, fuel, whole, leaves, done, before);
    rc := Ok;
    assert StopSeen(rc, run.events) by { OkIsNotStopped(run.events); }
  }

  lemma NothingSplit(whole: Outcome)
    ensures Split(whole, [], [], whole)
  {
  }

  lemma AllSplit(env: Env, nodes: seq<Node>, owner: Option<nat>, links: seq<Link>, input: seq<byte>, fuel: nat,
                 whole: Outcome, leaves: seq<seq<byte>>, commands: seq<Command>)
    requires fuel > 0 && Split(whole, leaves, commands, Links(env, nodes, owner, links[|links|..], input, fuel))
    ensures whole == Outcome(true, leaves, commands)
  {
  }

  lemma OkIsNotStopped(events: seq<Event>)
    ensures StopSeen(Ok, events)
  {
  }

  // ---------- a whole run ----------

  /** The run of a flow without stop requests: its one entry, or all its entries, left to right. */
  ghost function Whole(env: Env, nodes: seq<Node>, entries: seq<Link>, entry: Option<seq<byte>>,
                       input: seq<byte>): Outcome
  {
    match entry
    case Some(ref) =>
      var target := NodeOf(nodes, ref);
      if target.None? then Outcome(false, [], []) else Tree(env, nodes, target.value, input, MAX_DEPTH + 1)
    case None => Links(env, nodes, None, entries, input, MAX_DEPTH + 2)
  }

  /**
   * kc_flow_load and kc_flow_run_loaded: a validated flow ends with the concatenation of all branches of
   * the uninterrupted run, or with no output at all; the commands it starts are a prefix of the
   * uninterrupted run's, and without a stop request it fails only when that run fails or has too many branches.
   */
  method RunLoaded(stops: nat -> bool, env: Env, nodes: seq<Node>, entries: seq<Link>, entry: Option<seq<byte>>,
                   input: seq<byte>)
    returns (rc: Status, output: Option<seq<byte>>, run: Run, ghost done: seq<Command>)
    requires |nodes| <= MAX_NODES
    ensures run.Valid() && run.stops == stops && done == Commands(run.events)
    ensures !Valid(nodes, entries, entry) ==> rc == Error && run.events == []
    ensures var whole := Whole(env, nodes, entries, entry, input);
            && done <= whole.commands
            && output == (if rc == Ok then Some(Concat(whole.leaves)) else None)
            && (rc == Ok ==> whole.ok && done == whole.commands && |whole.leaves| <= MAX_BRANCHES)
            && ((forall t :: !stops(t)) ==>
                  (rc == Ok <==> Valid(nodes, entries, entry) && whole.ok && |whole.leaves| <= MAX_BRANCHES))
            && (rc == Error && Valid(nodes, entries, entry) ==>
                  (!whole.ok && done == whole.commands) || |whole.leaves| > MAX_BRANCHES)
    ensures rc == Stopped ==> exists t :: 0 <= t < |run.events| && stops(t)
  {
    hide Run.Valid, Tree, Links, FlowValidate.Valid;
    run := new Run(stops);
    output, done := None, [];
    assert Commands([]) == [];
    var ok := ValidateModel(nodes, entries, entry);
    if !ok {
      return Error, None, run, [];
    }
    var outputs := new Branches();
    ghost var whole := Whole(env, nodes, entries, entry, input);
    if entry.Some? {
      var node := Find(nodes, entry.value);
      if node.None? {
        return Error, None, run, [];
      }
      rc, done := RunNode(run, env, nodes, node.value, input, outputs, 0);
    } else {
      rc, done := RunLinks(run, env, nodes, None, entries, input, outputs, 0);
    }
    assert Follows(rc, whole, done, [], outputs.items);
    SeenIsRequested(rc, run);
    if rc == Ok {
      assert [] + whole.leaves == whole.leaves;
      var data := Join(outputs.items);
      output := Some(data);
    }
  }

  lemma SeenIsRequested(rc: Status, run: Run)
    requires run.Valid() && StopSeen(rc, run.events)
    ensures rc == Stopped ==> exists t :: 0 <= t < |run.events| && run.stops(t)
  {
    if rc == Stopped {
      assert WellTimed(run.events, run.stops, |run.events| - 1);
    }
  }

  /** The branches one after the other in one buffer of their total size. */
  method Join(items: seq<seq<byte>>) returns (data: seq<byte>)
    ensures data == Concat(items)
  {
    data := [];
    var i := 0;
    assert items[..0] == [];
    while i < |items|
      invariant 0 <= i <= |items| && data == Concat(items[..i])
    {
      assert items[..i + 1] == items[..i] + [items[i]];
      ConcatSnoc(items[..i], items[i]);
      data := data + items[i];
      i := i + 1;
    }
    assert items[..i] == items;
  }

  // ---------- a run of one node ----------

  lemma LeafRuns(env: Env, nodes: seq<Node>, entries: seq<Link>, ref: seq<byte>, input: seq<byte>,
                 i: nat, c: seq<nat>, b: nat)
    requires NodeOf(nodes, ref) == Some(i) && i < |nodes| && nodes[i].links == []
    requires BehavesAs(nodes, i, c, b) && b < |nodes| && Whole(env, nodes, entries, Some(ref), input).ok
    ensures var whole := Whole(env, nodes, entries, Some(ref), input);
            && (nodes[b].exec == [] ==> Concat(whole.leaves) == input && whole.commands == [])
            && (nodes[b].exec != [] ==>
                  && env.expand(i).Some? && whole.commands == [Command(i, env.expand(i).value, input)]
                  && Some(Concat(whole.leaves)) == env.shell(Command(i, env.expand(i).value, input)))
  {
    ChainsLead(nodes, i);
    hide Behavior, BehavesAs;
    var result := Step(env, nodes, i, input).0;
    if result.Some? {
      ConcatOne(result.value);
    }
  }

  lemma ConcatOne<T>(x: seq<T>)
    ensures Concat([x]) == x
  {
    assert [x][1..] == [];
  }

  /**
   * A flow run at one node without links: the node does what the node at the end of its `use` chain says, but
   * with its own data. Without a command there the run copies its input, and otherwise it starts that one
   * command on the input and returns what the command made of it.
   */
  method RunOne(stops: nat -> bool, env: Env, nodes: seq<Node>, entries: seq<Link>, ref: seq<byte>, input: seq<byte>,
                ghost i: nat, ghost c: seq<nat>, ghost b: nat)
    returns (rc: Status, output: Option<seq<byte>>, ghost done: seq<Command>)
    requires |nodes| <= MAX_NODES && NodeOf(nodes, ref) == Some(i) && i < |nodes| && nodes[i].links == []
    requires BehavesAs(nodes, i, c, b) && b < |nodes|
    ensures rc != Ok ==> output == None
    ensures rc == Ok && nodes[b].exec == [] ==> output == Some(input) && done == []
    ensures rc == Ok && nodes[b].exec != [] ==>
              && env.expand(i).Some? && done == [Command(i, env.expand(i).value, input)]
              && output.Some? && output == env.shell(Command(i, env.expand(i).value, input))
  {
    var run;
    rc, output, run, done := RunLoaded(stops, env, nodes, entries, Some(ref), input);
    if rc == Ok {
      hide Whole, BehavesAs;
      LeafRuns(env, nodes, entries, ref, input, i, c, b);
    }
  }

  // ---------- what the output is ----------

  /** The listed paths of the flow, entry after entry. */
  function EntryPaths(nodes: seq<Node>, entries: seq<Link>): seq<seq<nat>> {
    if entries == [] then []
    else
      var target := NodeOf(nodes, entries[0].value);
      (if target.None? then [] else Paths(nodes, target.value, MAX_DEPTH + 1)) + EntryPaths(nodes, entries[1..])
  }

  lemma {:induction false} EntriesArePaths(env: Env, nodes: seq<Node>, entries: seq<Link>, input: seq<byte>)
    requires PlainTargets(env) && PlainFlow(nodes) && AllPlain(entries)
    requires Links(env, nodes, None, entries, input, MAX_DEPTH + 2).ok
    ensures Links(env, nodes, None, entries, input, MAX_DEPTH + 2).leaves
         == AlongAll(env, nodes, EntryPaths(nodes, entries), input)
  {
    hide Tree, Paths, PlainTargets, PlainFlow;
    if entries != [] {
      PlainTarget(env, nodes, None, entries[0], input, MAX_DEPTH + 1);
      var target := NodeOf(nodes, entries[0].value).value;
      TreeIsPaths(env, nodes, target, input, MAX_DEPTH + 1);
      EntriesArePaths(env, nodes, entries[1..], input);
      AlongAllSplit(env, nodes, Paths(nodes, target, MAX_DEPTH + 1), EntryPaths(nodes, entries[1..]), input);
    }
  }

  /** The listed paths are the maximal paths from the entries, each once for every choice of entry and links. */
  lemma {:induction false} EntryPathCount(nodes: seq<Node>, entries: seq<Link>, p: seq<nat>)
    requires AllLiteral(nodes)
    ensures multiset(EntryPaths(nodes, entries))[p]
         == if 0 < |p| <= MAX_DEPTH + 1 && Maximal(nodes, p[0], p)
            then LinksBetween(nodes, entries, p[0]) * Ways(nodes, p)
            else 0
  {
    hide AllLiteral, Maximal, Paths, Ways, NodeOf;
    if entries != [] {
      var target := NodeOf(nodes, entries[0].value);
      var first := if target.None? then [] else Paths(nodes, target.value, MAX_DEPTH + 1);
      EntryPathCount(nodes, entries[1..], p);
      SplitCount(first, EntryPaths(nodes, entries[1..]), p);
      if target.Some? {
        PathCount(nodes, target.value, MAX_DEPTH + 1, p);
        PathsHead(nodes, target.value, MAX_DEPTH + 1, p);
        if Maximal(nodes, target.value, p) {
          MaximalStarts(nodes, target.value, p);
        }
      }
      if p != [] {
        Distribute(if target == Some(p[0]) then 1 else 0, LinksBetween(nodes, entries[1..], p[0]), Ways(nodes, p));
      }
    }
  }

  /** The ways a run starts at node `b`: its one entry, or every entry that leads there. */
  ghost function Arrivals(nodes: seq<Node>, entries: seq<Link>, entry: Option<seq<byte>>, b: nat): nat {
    match entry
    case Some(ref) => if NodeOf(nodes, ref) == Some(b) then 1 else 0
    case None => LinksBetween(nodes, entries, b)
  }

  /** The listed paths of a run, in depth-first order. */
  ghost function RunPaths(nodes: seq<Node>, entries: seq<Link>, entry: Option<seq<byte>>): seq<seq<nat>> {
    match entry
    case Some(ref) =>
      var target := NodeOf(nodes, ref);
      if target.None? then [] else Paths(nodes, target.value, MAX_DEPTH + 1)
    case None => EntryPaths(nodes, entries)
  }

  /**
   * The branches of a successful run of plain links are the commands along the listed paths, in order, and
   * these are the maximal paths from the entries, each as often as its entry and links can be chosen.
   */
  lemma WholeIsPaths(env: Env, nodes: seq<Node>, entries: seq<Link>, entry: Option<seq<byte>>, input: seq<byte>)
    requires PlainTargets(env) && PlainFlow(nodes) && AllPlain(entries)
    requires Whole(env, nodes, entries, entry, input).ok
    ensures Whole(env, nodes, entries, entry, input).leaves
            == AlongAll(env, nodes, RunPaths(nodes, entries, entry), input)
    ensures forall p :: multiset(RunPaths(nodes, entries, entry))[p]
                     == if 0 < |p| <= MAX_DEPTH + 1 && Maximal(nodes, p[0], p)
                        then Arrivals(nodes, entries, entry, p[0]) * Ways(nodes, p)
                        else 0
  {
    hide PlainTargets, PlainFlow, Tree, Links, Paths, Maximal, Ways, LinksBetween, NodeOf, AlongAll, EntryPaths;
    PlainIsLiteral(nodes);
    match entry
    case Some(ref) =>
      var i := NodeOf(nodes, ref).value;
      TreeIsPaths(env, nodes, i, input, MAX_DEPTH + 1);
      var paths := Paths(nodes, i, MAX_DEPTH + 1);
      forall p: seq<nat>
        ensures multiset(paths)[p]
             == if 0 < |p| <= MAX_DEPTH + 1 && Maximal(nodes, p[0], p)
                then Arrivals(nodes, entries, entry, p[0]) * Ways(nodes, p)
                else 0
      {
        EntryCount(nodes, i, p);
      }
    case None =>
      EntriesArePaths(env, nodes, entries, input);
      var paths := EntryPaths(nodes, entries);
      forall p: seq<nat>
        ensures multiset(paths)[p]
             == if 0 < |p| <= MAX_DEPTH + 1 && Maximal(nodes, p[0], p)
                then LinksBetween(nodes, entries, p[0]) * Ways(nodes, p)
                else 0
      {
        EntryPathCount(nodes, entries, p);
      }
  }

  /** One entry: the maximal paths from its node. */
  lemma EntryCount(nodes: seq<Node>, i: nat, p: seq<nat>)
    requires AllLiteral(nodes)
    ensures multiset(Paths(nodes, i, MAX_DEPTH + 1))[p]
         == if 0 < |p| <= MAX_DEPTH + 1 && Maximal(nodes, p[0], p)
            then (if p[0] == i then 1 else 0) * Ways(nodes, p)
            else 0
  {
    hide AllLiteral, Maximal, Paths, Ways;
    PathCount(nodes, i, MAX_DEPTH + 1, p);
    if Maximal(nodes, i, p) {
      MaximalStarts(nodes, i, p);
    }
  }

  /**
   * In a validated flow of at most sixty-five nodes the depth guard never fires: any deeper guard gives
   * the same run.
   */
  lemma GuardNeverFires(env: Env, nodes: seq<Node>, entries: seq<Link>, entry: Option<seq<byte>>, root: nat,
                        input: seq<byte>, more: nat)
    requires PlainTargets(env) && PlainFlow(nodes)
    requires Valid(nodes, entries, entry) && |nodes| <= MAX_DEPTH + 1 <= more
    requires root in Starts(nodes, entries, entry).value
    ensures Tree(env, nodes, root, input, MAX_DEPTH + 1) == Tree(env, nodes, root, input, more)
  {
    hide Tree, Sound, PathsWithin, PlainTargets, PlainFlow;
    var roots := Starts(nodes, entries, entry).value;
    StartsExist(nodes, entries, entry, root);
    SoundBoundsPaths(nodes, roots, root);
    WiderBound(nodes, root, |nodes|, MAX_DEPTH + 1);
    FuelIsEnough(env, nodes, root, input, MAX_DEPTH + 1, more);
  }

  lemma WiderBound(nodes: seq<Node>, i: nat, n: nat, m: nat)
    requires PathsWithin(nodes, i, n) && n <= m
    ensures PathsWithin(nodes, i, m)
  {
  }

  lemma {:induction false} RootsExist(nodes: seq<Node>, entries: seq<Link>, root: nat)
    requires Roots(nodes, entries).Some? && root in Roots(nodes, entries).value
    ensures root < |nodes|
  {
    if entries != [] {
      var before := entries[..|entries| - 1];
      if root in Roots(nodes, before).value {
        RootsExist(nodes, before, root);
      }
    }
  }

  lemma StartsExist(nodes: seq<Node>, entries: seq<Link>, entry: Option<seq<byte>>, root: nat)
    requires Starts(nodes, entries, entry).Some? && root in Starts(nodes, entries, entry).value
    ensures root < |nodes|
  {
    if entry.None? {
      RootsExist(nodes, entries, root);
    }
  }
}
