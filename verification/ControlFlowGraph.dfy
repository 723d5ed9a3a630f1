/** Node graphs with plain and conditional edges, the walks through them, and the
    two successor maps the state analysis starts from. */
module ControlFlowGraph {
  import opened Basics

  type NodeId = string

  datatype Edge = Edge(source: NodeId, target: NodeId)

  /** One entry of a conditional edge's `branches` dictionary. */
  datatype Branch = Branch(name: string, target: NodeId)

  datatype ConditionalEdge = ConditionalEdge(source: NodeId, branches: seq<Branch>)

  /** The states a node reads and writes, in binding order, repeats kept. */
  datatype Node = Node(readStates: seq<string>, writtenStates: seq<string>)

  /** "Condition node `condition` was left through its branch `branch`." */
  datatype Choice = Choice(condition: NodeId, branch: string)

  type Signature = set<Choice>

  /** A way out of a node; a plain edge makes no choice. */
  datatype Transition = Transition(target: NodeId, choice: Option<Choice>)

  function Chosen(t: Transition): Signature {
    if t.choice.Some? then {t.choice.value} else {}
  }

  datatype Graph = Graph(
    order: seq<NodeId>,            // the keys of `nodes` in dictionary order
    nodes: map<NodeId, Node>,
    edges: seq<Edge>,
    conditionalEdges: seq<ConditionalEdge>)
  {
    /** What the schema validates: edges connect existing nodes. */
    ghost predicate Valid() {
      && (forall i, j :: 0 <= i < j < |order| ==> order[i] != order[j])
      && (forall n :: n in order <==> n in nodes)
      && (forall e :: e in edges ==> e.source in nodes && e.target in nodes)
      && (forall c :: c in conditionalEdges ==>
            c.source in nodes && forall b :: b in c.branches ==> b.target in nodes)
    }

    /** Some conditional edge of `n` leads to `b.target` through the branch `b.name`. */
    ghost predicate HasBranch(n: NodeId, b: Branch) {
      exists c :: c in conditionalEdges && c.source == n && b in c.branches
    }

    /** `t` is a way out of `n`. */
    ghost predicate Has(n: NodeId, t: Transition) {
      match t.choice
      case None => Edge(n, t.target) in edges
      case Some(c) => c.condition == n && HasBranch(n, Branch(c.branch, t.target))
    }

    /** `v` directly follows `u`. */
    ghost predicate Linked(u: NodeId, v: NodeId) {
      exists t :: Has(u, t) && t.target == v
    }

    ghost predicate HasIncoming(n: NodeId) {
      exists m {:trigger Linked(m, n)} :: m in nodes && Linked(m, n)
    }

    /** Entry nodes have no incoming transition; if every node has one, all are entries. */
    ghost predicate IsEntry(n: NodeId) {
      n in nodes && (!HasIncoming(n) || forall m {:trigger HasIncoming(m)} :: m in nodes ==> HasIncoming(m))
    }
  }

  /** A walk through a graph, nodes and edges repeated at will. */
  datatype Walk = Start(node: NodeId) | Extend(prefix: Walk, last: Transition)
  {
    function Origin(): NodeId {
      if Start? then node else prefix.Origin()
    }

    function End(): NodeId {
      if Start? then node else last.target
    }

    /** Every branch the walk takes. */
    function Choices(): Signature {
      if Start? then {} else prefix.Choices() + Chosen(last)
    }

    function Visited(): set<NodeId> {
      if Start? then {node} else prefix.Visited() + {last.target}
    }

    /** No node twice. */
    predicate Simple() {
      Start? || (prefix.Simple() && last.target !in prefix.Visited())
    }

    ghost predicate In(g: Graph) {
      if Start? then node in g.nodes else prefix.In(g) && g.Has(prefix.End(), last)
    }
  }

  /** Walks that begin where execution may begin. */
  ghost predicate EntryWalk(g: Graph, w: Walk) {
    w.In(g) && g.IsEntry(w.Origin())
  }

  ghost predicate ReachedFromEntry(g: Graph, n: NodeId) {
    exists w: Walk :: EntryWalk(g, w) && w.End() == n
  }

  /** `v` can be reached from `u` over at least one edge. */
  ghost predicate Reaches(g: Graph, u: NodeId, v: NodeId) {
    exists w: Walk :: LeadsTo(g, w, u, v)
  }

  ghost predicate LeadsTo(g: Graph, w: Walk, u: NodeId, v: NodeId) {
    w.Extend? && w.In(g) && w.Origin() == u && w.End() == v
  }

  /** Execution can begin somewhere in every graph with nodes, even if all lie on cycles. */
  lemma SomeEntry(g: Graph) returns (n: NodeId)
    requires g.nodes.Keys != {}
    ensures g.IsEntry(n)
  {
    n :| n in g.nodes;
    if m :| m in g.nodes && !g.HasIncoming(m) {
      n := m;
    }
  }

  lemma TargetIsNode(g: Graph, n: NodeId, t: Transition)
    requires g.Valid() && g.Has(n, t)
    ensures n in g.nodes && t.target in g.nodes
  {
    if t.choice.Some? {
      var c :| c in g.conditionalEdges && c.source == n && Branch(t.choice.value.branch, t.target) in c.branches;
    }
  }

  lemma {:induction false} WalkStaysInside(g: Graph, w: Walk)
    requires g.Valid() && w.In(g)
    ensures w.End() in g.nodes && w.Visited() <= g.nodes.Keys && w.End() in w.Visited()
  {
    if w.Extend? {
      WalkStaysInside(g, w.prefix);
      TargetIsNode(g, w.prefix.End(), w.last);
    }
  }

  // ---------- the branch choices a graph offers ----------

  ghost function AllChoices(g: Graph): Signature {
    set c, b | c in g.conditionalEdges && b in c.branches :: Choice(c.source, b.name)
  }

  lemma {:induction false} ChoicesComeFromGraph(g: Graph, w: Walk)
    requires w.In(g)
    ensures w.Choices() <= AllChoices(g)
  {
    if w.Extend? {
      ChoicesComeFromGraph(g, w.prefix);
      if w.last.choice.Some? {
        var b := Branch(w.last.choice.value.branch, w.last.target);
        var c :| c in g.conditionalEdges && c.source == w.prefix.End() && b in c.branches;
        assert w.last.choice.value == Choice(c.source, b.name);
      }
    }
  }

  /** A set of choices that never takes two branches of one condition. */
  predicate Consistent(s: Signature) {
    forall a, b :: a in s && b in s && a.condition == b.condition ==> a == b
  }

  /** A walk that repeats no node leaves each condition at most once, and has not
      yet left the node it stands on. */
  lemma {:induction false} SimpleWalkIsConsistent(g: Graph, w: Walk)
    requires w.In(g) && w.Simple()
    ensures Consistent(w.Choices())
    ensures forall c :: c in w.Choices() ==> c.condition in w.Visited() && c.condition != w.End()
  {
    if w.Extend? {
      SimpleWalkIsConsistent(g, w.prefix);
      EndIsVisited(w.prefix);
    }
  }

  lemma {:induction false} EndIsVisited(w: Walk)
    ensures w.End() in w.Visited()
  {
    if w.Extend? {
      EndIsVisited(w.prefix);
    }
  }

  // ---------- successor maps ----------

  /** `m` lists exactly the ways out of every node. */
  ghost predicate IsControlMap(g: Graph, m: map<NodeId, seq<Transition>>) {
    && m.Keys == g.nodes.Keys
    && forall n, t :: n in m ==> (t in m[n] <==> g.Has(n, t))
  }

  /** `m` lists exactly the direct successors of every node. */
  ghost predicate IsSuccessorMap(g: Graph, m: map<NodeId, seq<NodeId>>) {
    && m.Keys == g.nodes.Keys
    && forall n, v :: n in m ==> (v in m[n] <==> g.Linked(n, v))
  }

  /** `g` with the first `i` edges only. */
  ghost function EdgePrefix(g: Graph, i: nat): Graph
    requires i <= |g.edges|
  {
    g.(edges := g.edges[..i], conditionalEdges := [])
  }

  /** `g` with its edges, the first `j` conditional edges and `k` branches of the next one. */
  ghost function BranchPrefix(g: Graph, j: nat, k: nat): Graph
    requires j <= |g.conditionalEdges|
    requires if j < |g.conditionalEdges| then k <= |g.conditionalEdges[j].branches| else k == 0
  {
    if j == |g.conditionalEdges| then g else
    var next := g.conditionalEdges[j];
    g.(conditionalEdges := g.conditionalEdges[..j] + [ConditionalEdge(next.source, next.branches[..k])])
  }

  lemma OneMoreEdge(g: Graph, i: nat, n: NodeId, t: Transition)
    requires i < |g.edges|
    ensures EdgePrefix(g, i + 1).Has(n, t) <==>
            EdgePrefix(g, i).Has(n, t) || (n == g.edges[i].source && t == Transition(g.edges[i].target, None))
  {
    assert g.edges[..i + 1] == g.edges[..i] + [g.edges[i]];
  }

  /** Conditional edges add choices only; an empty conditional edge adds nothing. */
  lemma FirstBranch(g: Graph, n: NodeId, t: Transition)
    ensures BranchPrefix(g, 0, 0).Has(n, t) <==> EdgePrefix(g, |g.edges|).Has(n, t)
  {
    assert g.edges[..|g.edges|] == g.edges;
  }

  lemma NextConditionalEdge(g: Graph, j: nat, n: NodeId, t: Transition)
    requires j < |g.conditionalEdges|
    ensures BranchPrefix(g, j, |g.conditionalEdges[j].branches|).Has(n, t) <==> BranchPrefix(g, j + 1, 0).Has(n, t)
  {
    var here := g.conditionalEdges[j];
    var before := BranchPrefix(g, j, |here.branches|);
    var after := BranchPrefix(g, j + 1, 0);
    assert here.branches[..|here.branches|] == here.branches;
    assert g.conditionalEdges[..j + 1] == g.conditionalEdges[..j] + [here];
    if j + 1 == |g.conditionalEdges| {
      assert g.conditionalEdges[..j + 1] == g.conditionalEdges;
      assert before == after;
    } else {
      var empty := ConditionalEdge(g.conditionalEdges[j + 1].source, []);
      assert after.conditionalEdges == before.conditionalEdges + [empty];
      if t.choice.Some? {
        var b := Branch(t.choice.value.branch, t.target);
        if before.HasBranch(n, b) {
          var c :| c in before.conditionalEdges && c.source == n && b in c.branches;
          assert c in after.conditionalEdges;
        }
        if after.HasBranch(n, b) {
          var c :| c in after.conditionalEdges && c.source == n && b in c.branches;
          assert c in before.conditionalEdges;
        }
      }
    }
  }

  lemma OneMoreBranch(g: Graph, j: nat, k: nat, n: NodeId, t: Transition)
    requires j < |g.conditionalEdges| && k < |g.conditionalEdges[j].branches|
    ensures var next := g.conditionalEdges[j]; var b := next.branches[k];
            BranchPrefix(g, j, k + 1).Has(n, t) <==>
            BranchPrefix(g, j, k).Has(n, t) ||
            (n == next.source && t == Transition(b.target, Some(Choice(next.source, b.name))))
  {
    var next := g.conditionalEdges[j];
    var less, more := BranchPrefix(g, j, k), BranchPrefix(g, j, k + 1);
    var shorter := ConditionalEdge(next.source, next.branches[..k]);
    var longer := ConditionalEdge(next.source, next.branches[..k + 1]);
    assert longer.branches == shorter.branches + [next.branches[k]];
    assert longer in more.conditionalEdges && shorter in less.conditionalEdges;
    if t.choice.Some? {
      var b := Branch(t.choice.value.branch, t.target);
      if more.HasBranch(n, b) {
        var c :| c in more.conditionalEdges && c.source == n && b in c.branches;
        assert c == longer || c in less.conditionalEdges;
      }
      if less.HasBranch(n, b) {
        var c :| c in less.conditionalEdges && c.source == n && b in c.branches;
        assert c == shorter || c in more.conditionalEdges;
      }
    }
  }

  /** Enters the branches of one conditional edge. */
  method AddBranchTransitions(g: Graph, j: nat, before: map<NodeId, seq<Transition>>)
    returns (m: map<NodeId, seq<Transition>>)
    requires g.Valid() && j < |g.conditionalEdges| && IsControlMap(BranchPrefix(g, j, 0), before)
    ensures IsControlMap(BranchPrefix(g, j, |g.conditionalEdges[j].branches|), m)
  {
    m := before;
    var c := g.conditionalEdges[j];
    assert c in g.conditionalEdges;
    for k := 0 to |c.branches|
      invariant IsControlMap(BranchPrefix(g, j, k), m)
    {
      var b := c.branches[k];
      var out := Transition(b.target, Some(Choice(c.source, b.name)));
      forall n, t ensures BranchPrefix(g, j, k + 1).Has(n, t) <==>
        BranchPrefix(g, j, k).Has(n, t) || (n == c.source && t == out)
      {
        OneMoreBranch(g, j, k, n, t);
      }
      m := m[c.source := m[c.source] + [out]];
    }
  }

  /** Lists, per node, the transitions out of it with the branch each one takes. */
  method BuildControlSuccessorMap(g: Graph) returns (m: map<NodeId, seq<Transition>>)
    requires g.Valid()
    ensures IsControlMap(g, m)
  {
    m := map n | n in g.nodes :: [];
    for i := 0 to |g.edges|
      invariant IsControlMap(EdgePrefix(g, i), m)
    {
      var e := g.edges[i];
      assert e in g.edges;
      forall n, t ensures EdgePrefix(g, i + 1).Has(n, t) <==>
        EdgePrefix(g, i).Has(n, t) || (n == e.source && t == Transition(e.target, None))
      {
        OneMoreEdge(g, i, n, t);
      }
      m := m[e.source := m[e.source] + [Transition(e.target, None)]];
    }
    forall n, t ensures BranchPrefix(g, 0, 0).Has(n, t) <==> EdgePrefix(g, |g.edges|).Has(n, t) {
      FirstBranch(g, n, t);
    }
    for j := 0 to |g.conditionalEdges|
      invariant IsControlMap(BranchPrefix(g, j, 0), m)
    {
      var c := g.conditionalEdges[j];
      m := AddBranchTransitions(g, j, m);
      forall n, t ensures BranchPrefix(g, j, |c.branches|).Has(n, t) <==> BranchPrefix(g, j + 1, 0).Has(n, t) {
        NextConditionalEdge(g, j, n, t);
      }
    }
  }

  /** Enters the branch targets of one conditional edge. */
  method AddBranchTargets(g: Graph, j: nat, before: map<NodeId, seq<NodeId>>)
    returns (m: map<NodeId, seq<NodeId>>)
    requires g.Valid() && j < |g.conditionalEdges| && IsSuccessorMap(BranchPrefix(g, j, 0), before)
    ensures IsSuccessorMap(BranchPrefix(g, j, |g.conditionalEdges[j].branches|), m)
  {
    m := before;
    var c := g.conditionalEdges[j];
    assert c in g.conditionalEdges;
    for k := 0 to |c.branches|
      invariant IsSuccessorMap(BranchPrefix(g, j, k), m)
    {
      ghost var previous := m;
      m := m[c.source := m[c.source] + [c.branches[k].target]];
      forall n, v | n in m ensures v in m[n] <==> BranchPrefix(g, j, k + 1).Linked(n, v) {
        LinkedOverOneMoreBranch(g, j, k, n, v);
        assert v in m[n] <==> v in previous[n] || (n == c.source && v == c.branches[k].target);
      }
    }
  }

  /** Lists the direct successors of every node. */
  method BuildSuccessorMap(g: Graph) returns (m: map<NodeId, seq<NodeId>>)
    requires g.Valid()
    ensures IsSuccessorMap(g, m)
  {
    m := map n | n in g.nodes :: [];
    for i := 0 to |g.edges|
      invariant IsSuccessorMap(EdgePrefix(g, i), m)
    {
      var e := g.edges[i];
      assert e in g.edges;
      ghost var before := m;
      m := m[e.source := m[e.source] + [e.target]];
      forall n, v | n in m ensures v in m[n] <==> EdgePrefix(g, i + 1).Linked(n, v) {
        LinkedOverOneMoreEdge(g, i, n, v);
        assert v in m[n] <==> v in before[n] || (n == e.source && v == e.target);
      }
    }
    forall n, t ensures BranchPrefix(g, 0, 0).Has(n, t) <==> EdgePrefix(g, |g.edges|).Has(n, t) {
      FirstBranch(g, n, t);
    }
    for j := 0 to |g.conditionalEdges|
      invariant IsSuccessorMap(BranchPrefix(g, j, 0), m)
    {
      var c := g.conditionalEdges[j];
      m := AddBranchTargets(g, j, m);
      forall n, t ensures BranchPrefix(g, j, |c.branches|).Has(n, t) <==> BranchPrefix(g, j + 1, 0).Has(n, t) {
        NextConditionalEdge(g, j, n, t);
      }
    }
  }

  lemma LinkedOverOneMoreEdge(g: Graph, i: nat, u: NodeId, v: NodeId)
    requires i < |g.edges|
    ensures EdgePrefix(g, i + 1).Linked(u, v) <==>
            EdgePrefix(g, i).Linked(u, v) || (u == g.edges[i].source && v == g.edges[i].target)
  {
    var less, more := EdgePrefix(g, i), EdgePrefix(g, i + 1);
    var added := Transition(g.edges[i].target, None);
    forall t ensures more.Has(u, t) <==> less.Has(u, t) || (u == g.edges[i].source && t == added) {
      OneMoreEdge(g, i, u, t);
    }
    LinkedBySteps(less, more, u, v, added, u == g.edges[i].source);
  }

  lemma LinkedOverOneMoreBranch(g: Graph, j: nat, k: nat, u: NodeId, v: NodeId)
    requires j < |g.conditionalEdges| && k < |g.conditionalEdges[j].branches|
    ensures var c := g.conditionalEdges[j];
            BranchPrefix(g, j, k + 1).Linked(u, v) <==>
            BranchPrefix(g, j, k).Linked(u, v) || (u == c.source && v == c.branches[k].target)
  {
    var c := g.conditionalEdges[j];
    var less, more := BranchPrefix(g, j, k), BranchPrefix(g, j, k + 1);
    var added := Transition(c.branches[k].target, Some(Choice(c.source, c.branches[k].name)));
    forall t ensures more.Has(u, t) <==> less.Has(u, t) || (u == c.source && t == added) {
      OneMoreBranch(g, j, k, u, t);
    }
    LinkedBySteps(less, more, u, v, added, u == c.source);
  }

  lemma LinkedBySteps(less: Graph, more: Graph, u: NodeId, v: NodeId, added: Transition, here: bool)
    requires forall t :: more.Has(u, t) <==> less.Has(u, t) || (here && t == added)
    ensures more.Linked(u, v) <==> less.Linked(u, v) || (here && v == added.target)
  {
    if less.Linked(u, v) {
      var t :| less.Has(u, t) && t.target == v;
      assert more.Has(u, t);
    }
    if here {
      assert more.Has(u, added);
    }
  }
}
