/** The two worklist searches: the nodes reachable from a node, and the branch-path
    signatures that reach each node. Both are proved against walks. */
module ControlFlowSearch {
  import opened Basics
  import opened ControlFlowGraph

  // ---------- reachability ----------

  /** `n` was seen already or is still on the stack. */
  predicate SeenOrStacked(visited: set<NodeId>, stack: seq<NodeId>, n: NodeId) {
    n in visited || n in stack
  }

  /** Collects the nodes reachable from `start` over at least one edge; `start` itself
      is among them exactly when it lies on a cycle. */
  method CollectReachableNodes(g: Graph, start: NodeId, successors: map<NodeId, seq<NodeId>>)
    returns (visited: set<NodeId>)
    requires g.Valid() && start in g.nodes && IsSuccessorMap(g, successors)
    ensures forall n :: n in visited <==> Reaches(g, start, n)
  {
    visited := {};
    var stack := successors[start];
    forall n | n in stack ensures Reaches(g, start, n) {
      DirectSuccessorIsReached(g, start, n);
    }
    while stack != []
      invariant forall n :: SeenOrStacked(visited, stack, n) ==> Reaches(g, start, n)
      invariant forall n :: g.Linked(start, n) ==> SeenOrStacked(visited, stack, n)
      invariant forall m, n :: m in visited && g.Linked(m, n) ==> SeenOrStacked(visited, stack, n)
      invariant visited <= g.nodes.Keys
      decreases g.nodes.Keys - visited, |stack|
    {
      var node := stack[|stack| - 1];
      ghost var before := stack;
      stack := stack[..|stack| - 1];
      assert forall n :: n in before <==> n in stack || n == node;
      assert SeenOrStacked(visited, before, node);
      if node !in visited {
        ReachedIsNode(g, start, node);
        forall n | n in successors[node] ensures Reaches(g, start, n) {
          ReachedThenLinked(g, start, node, n);
        }
        visited := visited + {node};
        stack := stack + successors[node];
      }
    }
    forall n | Reaches(g, start, n) ensures n in visited {
      var w: Walk :| LeadsTo(g, w, start, n);
      ClosedSetHoldsWalks(g, start, visited, w);
    }
  }

  lemma DirectSuccessorIsReached(g: Graph, u: NodeId, v: NodeId)
    requires u in g.nodes && g.Linked(u, v)
    ensures Reaches(g, u, v)
  {
    var t :| g.Has(u, t) && t.target == v;
    var w := Extend(Start(u), t);
    assert w.prefix.In(g) && w.prefix.End() == u && w.prefix.Origin() == u;
    assert LeadsTo(g, w, u, v);
  }

  lemma ReachedThenLinked(g: Graph, u: NodeId, m: NodeId, v: NodeId)
    requires Reaches(g, u, m) && g.Linked(m, v)
    ensures Reaches(g, u, v)
  {
    var w: Walk :| LeadsTo(g, w, u, m);
    var t :| g.Has(m, t) && t.target == v;
    assert LeadsTo(g, Extend(w, t), u, v);
  }

  lemma ReachedIsNode(g: Graph, u: NodeId, v: NodeId)
    requires g.Valid() && Reaches(g, u, v)
    ensures v in g.nodes
  {
    var w: Walk :| LeadsTo(g, w, u, v);
    WalkStaysInside(g, w);
  }

  lemma {:induction false} ClosedSetHoldsWalks(g: Graph, start: NodeId, closed: set<NodeId>, w: Walk)
    requires LeadsTo(g, w, start, w.End())
    requires forall n :: g.Linked(start, n) ==> n in closed
    requires forall m, n :: m in closed && g.Linked(m, n) ==> n in closed
    ensures w.End() in closed
  {
    var before := w.prefix;
    assert g.Has(before.End(), w.last) && g.Linked(before.End(), w.End());
    if before.Extend? {
      assert before.In(g) && before.Origin() == start;
      ClosedSetHoldsWalks(g, start, closed, before);
    } else {
      assert before.End() == w.Origin();
    }
  }

  // ---------- branch-path signatures ----------

  type SignatureMap = map<NodeId, set<Signature>>

  /** A simple walk from an entry to `n` that takes exactly the choices `s`. */
  ghost predicate SimplePath(g: Graph, w: Walk, n: NodeId, s: Signature) {
    EntryWalk(g, w) && w.Simple() && w.End() == n && w.Choices() == s
  }

  ghost predicate Realised(g: Graph, n: NodeId, s: Signature) {
    exists w: Walk :: SimplePath(g, w, n, s)
  }

  /** Node `n` holds a signature that asks for no choice outside `s`. */
  ghost predicate Below(sigs: SignatureMap, n: NodeId, s: Signature) {
    n in sigs && exists r :: r in sigs[n] && r <= s
  }

  /** Every collected signature is the choice set of a simple path from an entry. */
  ghost predicate AllRealised(g: Graph, sigs: SignatureMap) {
    forall n, s {:trigger Realised(g, n, s)} :: n in sigs && s in sigs[n] ==> Realised(g, n, s)
  }

  /** Every walk from an entry, loops allowed, takes at least the choices of some
      signature collected at its end. */
  ghost predicate Dominates(g: Graph, sigs: SignatureMap) {
    forall w: Walk {:trigger Below(sigs, w.End(), w.Choices())} :: EntryWalk(g, w) ==> Below(sigs, w.End(), w.Choices())
  }

  datatype Item = Item(node: NodeId, signature: Signature, visited: set<NodeId>)

  /** The item has been reached along `w`. */
  ghost predicate Trail(g: Graph, it: Item, w: Walk) {
    SimplePath(g, w, it.node, it.signature) && w.Visited() == it.visited
  }

  /** Items stand for simple paths, and the nodes a path passed before its end already
      hold a signature below the item's. The path-local `visited` test loses nothing
      because of the latter. */
  ghost predicate Sound(g: Graph, sigs: SignatureMap, it: Item) {
    && (exists w: Walk :: Trail(g, it, w))
    && forall v :: v in it.visited && v != it.node ==> Below(sigs, v, it.signature)
  }

  ghost predicate Stacked(stack: seq<Item>, n: NodeId, s: Signature) {
    exists it :: it in stack && it.node == n && it.signature == s
  }

  /** `(n, s)` is dominated already, or will be once the stack has been worked off. */
  ghost predicate Covered(sigs: SignatureMap, stack: seq<Item>, n: NodeId, s: Signature) {
    Below(sigs, n, s) || Stacked(stack, n, s)
  }

  /** All steps out of the collected pair `(n, s)` are covered. */
  ghost predicate Expanded(g: Graph, sigs: SignatureMap, stack: seq<Item>, n: NodeId, s: Signature) {
    forall t :: g.Has(n, t) ==> Covered(sigs, stack, t.target, s + Chosen(t))
  }

  ghost predicate AllExpanded(g: Graph, sigs: SignatureMap, stack: seq<Item>) {
    forall n, s :: n in sigs && s in sigs[n] ==> Expanded(g, sigs, stack, n, s)
  }

  ghost predicate EntriesCovered(g: Graph, sigs: SignatureMap, stack: seq<Item>) {
    forall n :: g.IsEntry(n) ==> Covered(sigs, stack, n, {})
  }

  ghost predicate AllSound(g: Graph, sigs: SignatureMap, stack: seq<Item>) {
    forall it :: it in stack ==> Sound(g, sigs, it)
  }

  /** The (node, signature) pairs there can be; the search terminates because it
      collects a new one or shortens the stack. */
  ghost function Universe(g: Graph): set<(NodeId, Signature)> {
    set n, s | n in g.nodes.Keys && s <= AllChoices(g) :: (n, s)
  }

  ghost function Collected(sigs: SignatureMap): set<(NodeId, Signature)> {
    set n, s | n in sigs.Keys && s in sigs[n] :: (n, s)
  }

  function Add(sigs: SignatureMap, n: NodeId, s: Signature): SignatureMap
    requires n in sigs
  {
    sigs[n := sigs[n] + {s}]
  }

  lemma AddKeepsBelow(sigs: SignatureMap, m: NodeId, r: Signature, n: NodeId, s: Signature)
    requires m in sigs && Below(sigs, n, s)
    ensures Below(Add(sigs, m, r), n, s)
  {
    var q :| q in sigs[n] && q <= s;
    assert q in Add(sigs, m, r)[n];
  }

  lemma BelowGrows(sigs: SignatureMap, n: NodeId, s: Signature, larger: Signature)
    requires Below(sigs, n, s) && s <= larger
    ensures Below(sigs, n, larger)
  {
  }

  /** Popping an item whose pair is collected uncovers nothing. */
  lemma PopKeepsCovered(sigs: SignatureMap, stack: seq<Item>, n: NodeId, s: Signature)
    requires stack != []
    requires var it := stack[|stack| - 1]; it.node in sigs && it.signature in sigs[it.node]
    requires Covered(sigs, stack, n, s)
    ensures Covered(sigs, stack[..|stack| - 1], n, s)
  {
    if Stacked(stack, n, s) {
      var it :| it in stack && it.node == n && it.signature == s;
      if it == stack[|stack| - 1] {
        assert s in sigs[n] && s <= s;
      } else {
        assert it in stack[..|stack| - 1];
      }
    }
  }

  lemma PopKeepsInvariants(g: Graph, sigs: SignatureMap, stack: seq<Item>)
    requires stack != []
    requires var it := stack[|stack| - 1]; it.node in sigs && it.signature in sigs[it.node]
    ensures AllSound(g, sigs, stack) ==> AllSound(g, sigs, stack[..|stack| - 1])
    ensures EntriesCovered(g, sigs, stack) ==> EntriesCovered(g, sigs, stack[..|stack| - 1])
    ensures forall n, s :: Expanded(g, sigs, stack, n, s) ==> Expanded(g, sigs, stack[..|stack| - 1], n, s)
  {
    forall n, s | Covered(sigs, stack, n, s) ensures Covered(sigs, stack[..|stack| - 1], n, s) {
      PopKeepsCovered(sigs, stack, n, s);
    }
  }

  lemma AddKeepsInvariants(g: Graph, sigs: SignatureMap, stack: seq<Item>, m: NodeId, r: Signature)
    requires m in sigs
    ensures AllSound(g, sigs, stack) ==> AllSound(g, Add(sigs, m, r), stack)
    ensures EntriesCovered(g, sigs, stack) ==> EntriesCovered(g, Add(sigs, m, r), stack)
    ensures forall n, s :: Expanded(g, sigs, stack, n, s) ==> Expanded(g, Add(sigs, m, r), stack, n, s)
  {
    forall n, s | Below(sigs, n, s) ensures Below(Add(sigs, m, r), n, s) {
      AddKeepsBelow(sigs, m, r, n, s);
    }
  }

  /** Collecting the top item's pair leaves only that pair's own steps to be covered. */
  lemma CollectKeepsInvariants(g: Graph, sigs: SignatureMap, stack: seq<Item>)
    requires stack != [] && stack[|stack| - 1].node in sigs
    requires AllRealised(g, sigs) && AllSound(g, sigs, stack)
    requires EntriesCovered(g, sigs, stack) && AllExpanded(g, sigs, stack)
    ensures var it := stack[|stack| - 1];
            var more, rest := Add(sigs, it.node, it.signature), stack[..|stack| - 1];
            && Sound(g, more, it) && AllRealised(g, more) && AllSound(g, more, rest) && EntriesCovered(g, more, rest)
            && forall n, s :: n in sigs && s in sigs[n] ==> Expanded(g, more, rest, n, s)
  {
    var it := stack[|stack| - 1];
    AddKeepsInvariants(g, sigs, stack, it.node, it.signature);
    PopKeepsInvariants(g, Add(sigs, it.node, it.signature), stack);
    assert it in stack;
    var w: Walk :| Trail(g, it, w);
    assert SimplePath(g, w, it.node, it.signature);
  }

  lemma PushKeepsCovered(sigs: SignatureMap, stack: seq<Item>, it: Item, n: NodeId, s: Signature)
    requires Covered(sigs, stack, n, s)
    ensures Covered(sigs, stack + [it], n, s)
  {
    if Stacked(stack, n, s) {
      var other :| other in stack && other.node == n && other.signature == s;
      assert other in stack + [it];
    }
  }

  lemma PushKeepsInvariants(g: Graph, sigs: SignatureMap, stack: seq<Item>, it: Item)
    ensures EntriesCovered(g, sigs, stack) ==> EntriesCovered(g, sigs, stack + [it])
    ensures forall n, s :: Expanded(g, sigs, stack, n, s) ==> Expanded(g, sigs, stack + [it], n, s)
  {
    forall n, s | Covered(sigs, stack, n, s) ensures Covered(sigs, stack + [it], n, s) {
      PushKeepsCovered(sigs, stack, it, n, s);
    }
  }

  /** The item for the step `t` out of `it`. */
  function Follow(it: Item, t: Transition): Item {
    Item(t.target, it.signature + Chosen(t), it.visited + {t.target})
  }

  lemma FollowIsSound(g: Graph, sigs: SignatureMap, it: Item, t: Transition)
    requires Sound(g, sigs, it) && g.Has(it.node, t) && t.target !in it.visited
    requires it.node in sigs && it.signature in sigs[it.node]
    ensures Sound(g, sigs, Follow(it, t))
  {
    var next := Follow(it, t);
    var w: Walk :| Trail(g, it, w);
    assert Trail(g, next, Extend(w, t));
    forall v | v in next.visited && v != next.node ensures Below(sigs, v, next.signature) {
      if v == it.node {
        assert it.signature <= next.signature;
      } else {
        BelowGrows(sigs, v, it.signature, next.signature);
      }
    }
  }

  /** A step back onto the item's own path is dominated already. */
  lemma StepBackIsCovered(g: Graph, sigs: SignatureMap, stack: seq<Item>, it: Item, t: Transition)
    requires Sound(g, sigs, it) && t.target in it.visited
    requires it.node in sigs && it.signature in sigs[it.node]
    ensures Covered(sigs, stack, t.target, it.signature + Chosen(t))
  {
    if t.target == it.node {
      assert it.signature <= it.signature + Chosen(t);
    } else {
      BelowGrows(sigs, t.target, it.signature, it.signature + Chosen(t));
    }
  }

  lemma ItemIsInUniverse(g: Graph, sigs: SignatureMap, it: Item)
    requires g.Valid() && Sound(g, sigs, it)
    ensures it.node in g.nodes && (it.node, it.signature) in Universe(g)
  {
    var w: Walk :| Trail(g, it, w);
    WalkStaysInside(g, w);
    ChoicesComeFromGraph(g, w);
  }

  /** Collecting a new pair uses up one of the finitely many. */
  lemma AddUsesUpPair(g: Graph, sigs: SignatureMap, n: NodeId, s: Signature)
    requires n in sigs && s !in sigs[n] && (n, s) in Universe(g)
    ensures Universe(g) - Collected(Add(sigs, n, s)) < Universe(g) - Collected(sigs)
  {
    var more := Add(sigs, n, s);
    assert (n, s) in Collected(more) && (n, s) !in Collected(sigs);
    forall p | p in Collected(sigs) ensures p in Collected(more) {
      assert p.1 in more[p.0];
    }
  }

  /** With an empty stack, the expanded family dominates every walk. */
  lemma {:induction false} ExpandedDominatesWalk(g: Graph, sigs: SignatureMap, w: Walk)
    requires EntriesCovered(g, sigs, []) && AllExpanded(g, sigs, []) && EntryWalk(g, w)
    ensures Below(sigs, w.End(), w.Choices())
  {
    if w.Start? {
      assert Covered(sigs, [], w.node, {});
    } else {
      ExpandedDominatesWalk(g, sigs, w.prefix);
      var s :| s in sigs[w.prefix.End()] && s <= w.prefix.Choices();
      assert Expanded(g, sigs, [], w.prefix.End(), s);
      assert Covered(sigs, [], w.End(), s + Chosen(w.last));
      BelowGrows(sigs, w.End(), s + Chosen(w.last), w.Choices());
    }
  }

  ghost predicate EnteredFrom(g: Graph, sources: seq<NodeId>, n: NodeId) {
    exists m :: m in sources && g.Linked(m, n)
  }

  ghost predicate Targeted(out: seq<Transition>, n: NodeId) {
    exists t :: t in out && t.target == n
  }

  lemma TargetedByOneMore(out: seq<Transition>, k: nat, n: NodeId)
    requires k < |out|
    ensures Targeted(out[..k + 1], n) <==> Targeted(out[..k], n) || out[k].target == n
  {
    assert out[..k + 1] == out[..k] + [out[k]];
    assert out[k] in out[..k + 1];
  }

  lemma EnteredFromOneMore(g: Graph, sources: seq<NodeId>, i: nat, out: seq<Transition>, n: NodeId)
    requires i < |sources| && forall t :: t in out <==> g.Has(sources[i], t)
    ensures EnteredFrom(g, sources[..i + 1], n) <==> EnteredFrom(g, sources[..i], n) || Targeted(out, n)
  {
    assert sources[..i + 1] == sources[..i] + [sources[i]];
    assert sources[i] in sources[..i + 1];
    if g.Linked(sources[i], n) {
      var t :| g.Has(sources[i], t) && t.target == n;
      assert t in out;
    }
  }

  /** How many of the transitions lead to `n`. */
  function TargetCount(out: seq<Transition>, n: NodeId): nat {
    if out == [] then 0 else TargetCount(out[..|out| - 1], n) + (if out[|out| - 1].target == n then 1 else 0)
  }

  /** How many transitions of the listed nodes lead to `n`. */
  function IncomingCount(successors: map<NodeId, seq<Transition>>, sources: seq<NodeId>, n: NodeId): nat
    requires forall m :: m in sources ==> m in successors
  {
    if sources == [] then 0
    else IncomingCount(successors, sources[..|sources| - 1], n) + TargetCount(successors[sources[|sources| - 1]], n)
  }

  lemma {:induction false} TargetCountIsPositive(out: seq<Transition>, n: NodeId)
    ensures TargetCount(out, n) > 0 <==> Targeted(out, n)
  {
    if out != [] {
      TargetCountIsPositive(out[..|out| - 1], n);
      TargetedByOneMore(out, |out| - 1, n);
      assert out[..|out| - 1 + 1] == out;
    }
  }

  lemma {:induction false} IncomingCountIsPositive(g: Graph, successors: map<NodeId, seq<Transition>>,
                                                   sources: seq<NodeId>, n: NodeId)
    requires g.Valid() && IsControlMap(g, successors) && forall m :: m in sources ==> m in g.nodes
    ensures IncomingCount(successors, sources, n) > 0 <==> EnteredFrom(g, sources, n)
  {
    if sources != [] {
      var last := |sources| - 1;
      IncomingCountIsPositive(g, successors, sources[..last], n);
      TargetCountIsPositive(successors[sources[last]], n);
      EnteredFromOneMore(g, sources, last, successors[sources[last]], n);
      assert sources[..last + 1] == sources;
    }
  }

  lemma CountedIsEntered(g: Graph, successors: map<NodeId, seq<Transition>>, n: NodeId)
    requires g.Valid() && IsControlMap(g, successors)
    ensures IncomingCount(successors, g.order, n) > 0 <==> g.HasIncoming(n)
  {
    IncomingCountIsPositive(g, successors, g.order, n);
    assert forall m :: m in g.order <==> m in g.nodes;
  }

  /** Adds the targets of one node's transitions to the counts. */
  method CountTargets(nodes: set<NodeId>, counts: map<NodeId, nat>, out: seq<Transition>)
    returns (incoming: map<NodeId, nat>)
    requires counts.Keys == nodes
    ensures incoming.Keys == nodes
    ensures forall n {:trigger incoming[n]} :: n in nodes ==> incoming[n] == counts[n] + TargetCount(out, n)
  {
    incoming := counts;
    for k := 0 to |out|
      invariant incoming.Keys == nodes
      invariant forall n {:trigger incoming[n]} :: n in nodes ==> incoming[n] == counts[n] + TargetCount(out[..k], n)
    {
      var target := out[k].target;
      assert out[..k + 1][..k] == out[..k];
      if target in incoming {
        incoming := incoming[target := incoming[target] + 1];
      }
    }
    assert out[..|out|] == out;
  }

  method CountFrom(nodes: set<NodeId>, successors: map<NodeId, seq<Transition>>, sources: seq<NodeId>)
    returns (incoming: map<NodeId, nat>)
    requires forall m :: m in sources ==> m in successors
    ensures incoming.Keys == nodes
    ensures forall n {:trigger incoming[n]} :: n in nodes ==> incoming[n] == IncomingCount(successors, sources, n)
  {
    incoming := map n | n in nodes :: 0;
    for i := 0 to |sources|
      invariant incoming.Keys == nodes
      invariant forall n {:trigger incoming[n]} :: n in nodes ==>
        incoming[n] == IncomingCount(successors, sources[..i], n)
    {
      assert sources[i] in sources && sources[..i + 1][..i] == sources[..i];
      incoming := CountTargets(nodes, incoming, successors[sources[i]]);
    }
    assert sources[..|sources|] == sources;
  }

  /** Counts the transitions into each node; a node nothing enters counts zero. */
  method CountIncoming(g: Graph, successors: map<NodeId, seq<Transition>>) returns (incoming: map<NodeId, nat>)
    requires g.Valid() && IsControlMap(g, successors)
    ensures incoming.Keys == g.nodes.Keys
    ensures forall n {:trigger incoming[n]} :: n in g.nodes ==> incoming[n] == IncomingCount(successors, g.order, n)
    ensures forall n {:trigger incoming[n]} :: n in g.nodes ==> (incoming[n] == 0 <==> !g.HasIncoming(n))
  {
    incoming := CountFrom(g.nodes.Keys, successors, g.order);
    forall n | n in g.nodes ensures IncomingCount(successors, g.order, n) > 0 <==> g.HasIncoming(n) {
      CountedIsEntered(g, successors, n);
    }
  }

  /** The nodes of `ids` that nothing was counted for, in order. */
  function Uncounted(ids: seq<NodeId>, incoming: map<NodeId, nat>): seq<NodeId>
    requires forall n :: n in ids ==> n in incoming
  {
    if ids == [] then []
    else (if incoming[ids[0]] == 0 then [ids[0]] else []) + Uncounted(ids[1..], incoming)
  }

  lemma {:induction false} UncountedMembers(ids: seq<NodeId>, incoming: map<NodeId, nat>, n: NodeId)
    requires forall m :: m in ids ==> m in incoming
    ensures n in Uncounted(ids, incoming) <==> n in ids && incoming[n] == 0
  {
    if ids != [] {
      UncountedMembers(ids[1..], incoming, n);
      assert n in ids <==> n == ids[0] || n in ids[1..];
    }
  }

  lemma UncountedAreFree(g: Graph, incoming: map<NodeId, nat>)
    requires g.Valid() && incoming.Keys == g.nodes.Keys
    requires forall n {:trigger incoming[n]} :: n in g.nodes ==> (incoming[n] == 0 <==> !g.HasIncoming(n))
    ensures forall n {:trigger n in Uncounted(g.order, incoming)} ::
              n in Uncounted(g.order, incoming) <==> n in g.nodes && !g.HasIncoming(n)
  {
    forall n ensures n in Uncounted(g.order, incoming) <==> n in g.nodes && !g.HasIncoming(n) {
      UncountedMembers(g.order, incoming, n);
    }
  }

  lemma EntriesByIncoming(g: Graph, free: seq<NodeId>)
    requires g.Valid() && forall m {:trigger m in free} :: m in free <==> m in g.nodes && !g.HasIncoming(m)
    ensures forall n {:trigger g.IsEntry(n)} :: g.IsEntry(n) <==> n in (if free == [] then g.order else free)
  {
    if free != [] {
      assert free[0] in free;
      forall n ensures g.IsEntry(n) <==> n in free {
      }
    } else {
      forall m | m in g.nodes ensures g.HasIncoming(m) {
        assert m !in free;
      }
    }
  }

  /** The nodes without incoming transitions, or all nodes if there is none. */
  method EntryNodes(g: Graph, successors: map<NodeId, seq<Transition>>) returns (entries: seq<NodeId>)
    requires g.Valid() && IsControlMap(g, successors)
    ensures forall n :: n in entries <==> g.IsEntry(n)
  {
    var incoming := CountIncoming(g, successors);
    entries := Uncounted(g.order, incoming);
    UncountedAreFree(g, incoming);
    EntriesByIncoming(g, entries);
    if entries == [] {
      entries := g.order;
    }
  }

  /** One item per entry, to start the search from. */
  method EntryItems(g: Graph, ghost sigs: SignatureMap, entries: seq<NodeId>) returns (stack: seq<Item>)
    requires forall n :: n in entries <==> g.IsEntry(n)
    ensures AllSound(g, sigs, stack) && EntriesCovered(g, sigs, stack)
  {
    stack := [];
    for i := 0 to |entries|
      invariant AllSound(g, sigs, stack)
      invariant forall k :: 0 <= k < i ==> Stacked(stack, entries[k], {})
    {
      var it := Item(entries[i], {}, {entries[i]});
      assert entries[i] in entries;
      assert Trail(g, it, Start(entries[i]));
      forall k | 0 <= k < i ensures Stacked(stack + [it], entries[k], {}) {
        assert Stacked(stack, entries[k], {});
        var other :| other in stack && other.node == entries[k] && other.signature == {};
        assert other in stack + [it];
      }
      stack := stack + [it];
      assert it in stack;
    }
    forall n | g.IsEntry(n) ensures Covered(sigs, stack, n, {}) {
      var k :| 0 <= k < |entries| && entries[k] == n;
      assert Stacked(stack, entries[k], {});
    }
  }

  /** Collects, for every node, choice sets of simple paths from the entries; a path is
      given up at a (node, signature) pair seen before. */
  method CollectBranchPathSignatures(g: Graph) returns (sigs: SignatureMap)
    requires g.Valid()
    ensures sigs.Keys == g.nodes.Keys
    ensures AllRealised(g, sigs)
    ensures Dominates(g, sigs)
  {
    var successors := BuildControlSuccessorMap(g);
    var entries := EntryNodes(g, successors);
    sigs := map n | n in g.nodes :: {};
    var stack := EntryItems(g, sigs, entries);
    while stack != []
      invariant sigs.Keys == g.nodes.Keys
      invariant AllRealised(g, sigs)
      invariant AllSound(g, sigs, stack)
      invariant EntriesCovered(g, sigs, stack)
      invariant AllExpanded(g, sigs, stack)
      decreases Universe(g) - Collected(sigs), |stack|
    {
      var it := stack[|stack| - 1];
      ItemIsInUniverse(g, sigs, it);
      if it.signature in sigs[it.node] {
        PopKeepsInvariants(g, sigs, stack);
        stack := stack[..|stack| - 1];
      } else {
        ghost var before := sigs;
        AddUsesUpPair(g, sigs, it.node, it.signature);
        CollectKeepsInvariants(g, sigs, stack);
        sigs := Add(sigs, it.node, it.signature);
        stack := stack[..|stack| - 1];
        stack := PushFollowers(g, before, sigs, stack, it, successors[it.node]);
      }
    }
    forall w: Walk | EntryWalk(g, w) ensures Below(sigs, w.End(), w.Choices()) {
      ExpandedDominatesWalk(g, sigs, w);
    }
  }

  /** Pushes the steps out of `it` that do not return to its own path. */
  method PushFollowers(g: Graph, ghost before: SignatureMap, ghost sigs: SignatureMap, rest: seq<Item>,
                       it: Item, out: seq<Transition>)
    returns (stack: seq<Item>)
    requires it.node in before && sigs == Add(before, it.node, it.signature)
    requires forall t :: t in out <==> g.Has(it.node, t)
    requires Sound(g, sigs, it) && AllSound(g, sigs, rest) && EntriesCovered(g, sigs, rest)
    requires forall n, s :: n in before && s in before[n] ==> Expanded(g, sigs, rest, n, s)
    ensures AllSound(g, sigs, stack) && EntriesCovered(g, sigs, stack) && AllExpanded(g, sigs, stack)
  {
    stack := rest;
    for k := 0 to |out|
      invariant AllSound(g, sigs, stack)
      invariant EntriesCovered(g, sigs, stack)
      invariant forall n, s :: n in before && s in before[n] ==> Expanded(g, sigs, stack, n, s)
      invariant forall t :: t in out[..k] ==> Covered(sigs, stack, t.target, it.signature + Chosen(t))
    {
      var t := out[k];
      assert t in out;
      assert out[..k + 1] == out[..k] + [t];
      if t.target in it.visited {
        StepBackIsCovered(g, sigs, stack, it, t);
      } else {
        var next := Follow(it, t);
        FollowIsSound(g, sigs, it, t);
        PushKeepsInvariants(g, sigs, stack, next);
        forall u | u in out[..k] ensures Covered(sigs, stack + [next], u.target, it.signature + Chosen(u)) {
          PushKeepsCovered(sigs, stack, next, u.target, it.signature + Chosen(u));
        }
        stack := stack + [next];
        assert next in stack;
        assert Stacked(stack, t.target, it.signature + Chosen(t));
      }
    }
    assert out[..|out|] == out;
    assert Expanded(g, sigs, stack, it.node, it.signature);
  }
}
