/** Which state reads are ambiguous: two writers reach the read, neither comes before
    the other, and they are not on mutually exclusive branches. */
module ControlFlowReport {
  import opened Basics
  import opened ControlFlowGraph
  import opened ControlFlowSearch

  // ---------- mutually exclusive writers ----------

  /** Some condition is left through different branches. */
  ghost predicate Conflict(a: Signature, b: Signature) {
    exists x, y :: x in a && y in b && x.condition == y.condition && x != y
  }

  /** Both nodes can be executed, but any two executions leading to them, loops allowed,
      leave some condition through different branches. */
  ghost predicate Exclusive(g: Graph, l: NodeId, r: NodeId) {
    && ReachedFromEntry(g, l)
    && ReachedFromEntry(g, r)
    && forall v: Walk, w: Walk :: EntryWalk(g, v) && v.End() == l && EntryWalk(g, w) && w.End() == r
         ==> Conflict(v.Choices(), w.Choices())
  }

  /** Whether two signatures together name at most one branch per condition. The source
      iterates both sets in no particular order. */
  method BranchPathSignaturesAreCompatible(left: Signature, right: Signature) returns (compatible: bool)
    ensures compatible <==> Consistent(left + right)
  {
    var selected: map<NodeId, string> := map[];
    var restLeft, restRight := left, right;
    while restLeft != {} || restRight != {}
      invariant restLeft <= left && restRight <= right
      invariant forall c :: c in (left - restLeft) + (right - restRight) ==>
        c.condition in selected && selected[c.condition] == c.branch
      invariant forall k :: k in selected ==> Choice(k, selected[k]) in left + right
      decreases |restLeft| + |restRight|
    {
      var c: Choice;
      if restLeft != {} {
        c :| c in restLeft;
        restLeft := restLeft - {c};
      } else {
        c :| c in restRight;
        restRight := restRight - {c};
      }
      if c.condition in selected && selected[c.condition] != c.branch {
        assert Choice(c.condition, selected[c.condition]) in left + right;
        return false;
      }
      selected := selected[c.condition := c.branch];
    }
    assert (left - restLeft) + (right - restRight) == left + right;
    return true;
  }

  /** The signatures of a node; none for a node the map does not know. */
  function SignaturesOf(sigs: SignatureMap, n: NodeId): set<Signature> {
    if n in sigs then sigs[n] else {}
  }

  ghost predicate NoneCompatible(a: Signature, others: set<Signature>) {
    forall b :: b in others ==> !Consistent(a + b)
  }

  /** Both nodes have signatures, and no two of them are compatible. */
  ghost predicate SignaturesExclude(left: NodeId, right: NodeId, sigs: SignatureMap) {
    var ls, rs := SignaturesOf(sigs, left), SignaturesOf(sigs, right);
    ls != {} && rs != {} && forall a :: a in ls ==> NoneCompatible(a, rs)
  }

  /** Tests all pairs of signatures, in no particular order. */
  method AreMutuallyExclusiveBranchWriters(left: NodeId, right: NodeId, sigs: SignatureMap) returns (exclusive: bool)
    ensures exclusive <==> SignaturesExclude(left, right, sigs)
  {
    var ls, rs := SignaturesOf(sigs, left), SignaturesOf(sigs, right);
    if ls == {} || rs == {} {
      return false;
    }
    var restLeft := ls;
    while restLeft != {}
      invariant restLeft <= ls
      invariant forall a :: a in ls - restLeft ==> NoneCompatible(a, rs)
      decreases |restLeft|
    {
      var a :| a in restLeft;
      restLeft := restLeft - {a};
      var restRight := rs;
      while restRight != {}
        invariant restRight <= rs
        invariant NoneCompatible(a, rs - restRight)
        decreases |restRight|
      {
        var b :| b in restRight;
        restRight := restRight - {b};
        var compatible := BranchPathSignaturesAreCompatible(a, b);
        if compatible {
          assert !NoneCompatible(a, rs);
          return false;
        }
      }
      assert rs - restRight == rs;
    }
    return true;
  }

  lemma InconsistentUnion(a: Signature, b: Signature)
    requires Consistent(a) && Consistent(b)
    ensures !Consistent(a + b) <==> Conflict(a, b)
  {
    if !Consistent(a + b) {
      var x, y :| x in a + b && y in a + b && x.condition == y.condition && x != y;
      if x in a {
        assert y in b;
      } else {
        assert x in b && y in a;
      }
    }
  }

  lemma CollectedIsConsistent(g: Graph, sigs: SignatureMap, n: NodeId, s: Signature)
    requires AllRealised(g, sigs) && s in SignaturesOf(sigs, n)
    ensures Consistent(s)
  {
    assert Realised(g, n, s);
    var w: Walk :| SimplePath(g, w, n, s);
    SimpleWalkIsConsistent(g, w);
  }

  lemma DominatingSignature(g: Graph, sigs: SignatureMap, w: Walk) returns (s: Signature)
    requires Dominates(g, sigs) && EntryWalk(g, w)
    ensures s in SignaturesOf(sigs, w.End()) && s <= w.Choices()
  {
    assert Below(sigs, w.End(), w.Choices());
    s :| s in sigs[w.End()] && s <= w.Choices();
  }

  lemma ConflictGrows(a: Signature, b: Signature, largeA: Signature, largeB: Signature)
    requires Consistent(a) && Consistent(b) && !Consistent(a + b)
    requires a <= largeA && b <= largeB
    ensures Conflict(largeA, largeB)
  {
    InconsistentUnion(a, b);
    var x, y :| x in a && y in b && x.condition == y.condition && x != y;
    assert x in largeA && y in largeB;
  }

  /** Incompatible signatures put a conflict between any two walks, loops included. */
  lemma WalksConflict(g: Graph, sigs: SignatureMap, v: Walk, w: Walk)
    requires AllRealised(g, sigs) && Dominates(g, sigs) && EntryWalk(g, v) && EntryWalk(g, w)
    requires SignaturesExclude(v.End(), w.End(), sigs)
    ensures Conflict(v.Choices(), w.Choices())
  {
    var a := DominatingSignature(g, sigs, v);
    var b := DominatingSignature(g, sigs, w);
    CollectedIsConsistent(g, sigs, v.End(), a);
    CollectedIsConsistent(g, sigs, w.End(), b);
    ConflictGrows(a, b, v.Choices(), w.Choices());
  }

  /** Conflicting walks put an incompatibility between any two signatures. */
  lemma SignaturesConflict(g: Graph, sigs: SignatureMap, l: NodeId, r: NodeId, a: Signature, b: Signature)
    requires AllRealised(g, sigs) && Exclusive(g, l, r)
    requires a in SignaturesOf(sigs, l) && b in SignaturesOf(sigs, r)
    ensures !Consistent(a + b)
  {
    assert Realised(g, l, a) && Realised(g, r, b);
    var v: Walk :| SimplePath(g, v, l, a);
    var w: Walk :| SimplePath(g, w, r, b);
    assert EntryWalk(g, v) && v.End() == l && EntryWalk(g, w) && w.End() == r;
    CollectedIsConsistent(g, sigs, l, a);
    CollectedIsConsistent(g, sigs, r, b);
    InconsistentUnion(a, b);
  }

  /** The verdict computed from the collected signatures is exact, although only simple
      paths are collected and some of those are given up. */
  lemma ExclusionIsExact(g: Graph, sigs: SignatureMap, l: NodeId, r: NodeId)
    requires AllRealised(g, sigs) && Dominates(g, sigs)
    ensures SignaturesExclude(l, r, sigs) <==> Exclusive(g, l, r)
  {
    if SignaturesExclude(l, r, sigs) {
      SignatureMeansReached(g, sigs, l);
      SignatureMeansReached(g, sigs, r);
      forall v: Walk, w: Walk | EntryWalk(g, v) && v.End() == l && EntryWalk(g, w) && w.End() == r
        ensures Conflict(v.Choices(), w.Choices())
      {
        WalksConflict(g, sigs, v, w);
      }
    } else if Exclusive(g, l, r) {
      ReachedMeansSignature(g, sigs, l);
      ReachedMeansSignature(g, sigs, r);
      var a :| a in sigs[l] && exists b :: b in sigs[r] && Consistent(a + b);
      var b :| b in sigs[r] && Consistent(a + b);
      SignaturesConflict(g, sigs, l, r, a, b);
      assert false;
    }
  }

  lemma SignatureMeansReached(g: Graph, sigs: SignatureMap, n: NodeId)
    requires AllRealised(g, sigs) && SignaturesOf(sigs, n) != {}
    ensures ReachedFromEntry(g, n)
  {
    var s :| s in sigs[n];
    assert Realised(g, n, s);
    var w: Walk :| SimplePath(g, w, n, s);
  }

  lemma ReachedMeansSignature(g: Graph, sigs: SignatureMap, n: NodeId)
    requires Dominates(g, sigs) && ReachedFromEntry(g, n)
    ensures n in sigs && sigs[n] != {}
  {
    var w: Walk :| EntryWalk(g, w) && w.End() == n;
    assert Below(sigs, n, w.Choices());
  }

  /** Nothing smaller is missing: a choice set that some walk to `n` takes, and no other
      walk to `n` undercuts, is collected as it is. */
  lemma LeastChoicesAreCollected(g: Graph, sigs: SignatureMap, w: Walk)
    requires AllRealised(g, sigs) && Dominates(g, sigs) && EntryWalk(g, w)
    requires forall v: Walk :: EntryWalk(g, v) && v.End() == w.End() && v.Choices() <= w.Choices()
               ==> v.Choices() == w.Choices()
    ensures w.Choices() in SignaturesOf(sigs, w.End())
  {
    var s := DominatingSignature(g, sigs, w);
    assert Realised(g, w.End(), s);
    var v: Walk :| SimplePath(g, v, w.End(), s);
  }

  // ---------- a writer is never exclusive with itself ----------

  /** The part of `w` up to `n`. */
  lemma {:induction false} CutAt(g: Graph, w: Walk, n: NodeId) returns (v: Walk)
    requires w.In(g) && w.Simple() && n in w.Visited()
    ensures v.In(g) && v.Simple() && v.Origin() == w.Origin() && v.End() == n
  {
    if w.Start? || n == w.End() {
      v := w;
    } else {
      v := CutAt(g, w.prefix, n);
    }
  }

  lemma {:induction false} WithoutLoops(g: Graph, w: Walk) returns (v: Walk)
    requires w.In(g)
    ensures v.In(g) && v.Simple() && v.Origin() == w.Origin() && v.End() == w.End()
  {
    if w.Start? {
      v := w;
    } else {
      v := WithoutLoops(g, w.prefix);
      if w.last.target in v.Visited() {
        v := CutAt(g, v, w.last.target);
      } else {
        v := Extend(v, w.last);
      }
    }
  }

  lemma NeverExclusiveWithItself(g: Graph, n: NodeId)
    ensures !Exclusive(g, n, n)
  {
    if ReachedFromEntry(g, n) {
      var w: Walk :| EntryWalk(g, w) && w.End() == n;
      var v := WithoutLoops(g, w);
      SimpleWalkIsConsistent(g, v);
      assert EntryWalk(g, v) && v.End() == n && !Conflict(v.Choices(), v.Choices());
    }
  }

  // ---------- ambiguous reads ----------

  /** `l` and `r` write `s`, the same node counting as two writers only if it lists the
      state twice. */
  ghost predicate TwoWrites(g: Graph, l: NodeId, r: NodeId, s: string) {
    && l in g.nodes && r in g.nodes
    && if l == r then multiset(g.nodes[l].writtenStates)[s] >= 2
       else s in g.nodes[l].writtenStates && s in g.nodes[r].writtenStates
  }

  /** Neither node comes before the other, and both may run in one execution. */
  ghost predicate Unordered(g: Graph, l: NodeId, r: NodeId) {
    !Reaches(g, l, r) && !Reaches(g, r, l) && !Exclusive(g, l, r)
  }

  /** `w` is a writer other than the reading node, and comes before it. */
  ghost predicate Feeds(g: Graph, w: NodeId, reader: NodeId) {
    w != reader && Reaches(g, w, reader)
  }

  ghost predicate Ambiguous(g: Graph, reader: NodeId, s: string) {
    exists l, r :: TwoWrites(g, l, r, s) && Feeds(g, l, reader) && Feeds(g, r, reader) && Unordered(g, l, r)
  }

  /** When a read is ambiguous: two other nodes write the state, or one writes it twice; both
      come before the read, neither before the other, and some two executions reach them
      without ever leaving a condition through different branches. What the reading node
      itself writes does not count. */
  lemma AmbiguityMeans(g: Graph, reader: NodeId, s: string)
    ensures Ambiguous(g, reader, s) <==>
            exists l, r :: && l in g.nodes && r in g.nodes && l != reader && r != reader
                           && s in g.nodes[l].writtenStates && s in g.nodes[r].writtenStates
                           && (l == r ==> multiset(g.nodes[l].writtenStates)[s] >= 2)
                           && Reaches(g, l, reader) && Reaches(g, r, reader) && Unordered(g, l, r)
  {
    if l, r :| && l in g.nodes && r in g.nodes && l != reader && r != reader
               && s in g.nodes[l].writtenStates && s in g.nodes[r].writtenStates
               && (l == r ==> multiset(g.nodes[l].writtenStates)[s] >= 2)
               && Reaches(g, l, reader) && Reaches(g, r, reader) && Unordered(g, l, r)
    {
      assert TwoWrites(g, l, r, s) && Feeds(g, l, reader) && Feeds(g, r, reader);
    }
  }

  /** Listing a state twice among one node's writes makes every later read of it
      ambiguous, unless the node lies on a cycle. */
  lemma RepeatedWriteIsAmbiguous(g: Graph, w: NodeId, reader: NodeId, s: string)
    requires w in g.nodes && multiset(g.nodes[w].writtenStates)[s] >= 2
    requires Feeds(g, w, reader) && !Reaches(g, w, w)
    ensures Ambiguous(g, reader, s)
  {
    NeverExclusiveWithItself(g, w);
    assert TwoWrites(g, w, w, s) && Unordered(g, w, w);
  }

  lemma ExclusiveIsSymmetric(g: Graph, l: NodeId, r: NodeId)
    ensures Exclusive(g, l, r) ==> Exclusive(g, r, l)
  {
    if Exclusive(g, l, r) {
      forall v: Walk, w: Walk | EntryWalk(g, v) && v.End() == r && EntryWalk(g, w) && w.End() == l
        ensures Conflict(v.Choices(), w.Choices())
      {
        assert Conflict(w.Choices(), v.Choices());
      }
    }
  }

  // ---------- writer lists ----------

  /** `n`, once for each time `states` names `s`. */
  function Repeats(n: NodeId, states: seq<string>, s: string): seq<NodeId> {
    if states == [] then []
    else Repeats(n, states[..|states| - 1], s) + (if states[|states| - 1] == s then [n] else [])
  }

  /** The writers of `s` among `ids`, in order, repeats kept. */
  function Writers(g: Graph, ids: seq<NodeId>, s: string): seq<NodeId>
    requires forall n :: n in ids ==> n in g.nodes
  {
    if ids == [] then []
    else
      var n := ids[|ids| - 1];
      Writers(g, ids[..|ids| - 1], s) + Repeats(n, g.nodes[n].writtenStates, s)
  }

  lemma {:induction false} RepeatsCount(n: NodeId, states: seq<string>, s: string, m: NodeId)
    ensures multiset(Repeats(n, states, s))[m] == if m == n then multiset(states)[s] else 0
  {
    if states != [] {
      var init := states[..|states| - 1];
      assert states == init + [states[|states| - 1]];
      RepeatsCount(n, init, s, m);
    }
  }

  lemma {:induction false} WritersCount(g: Graph, ids: seq<NodeId>, s: string, m: NodeId)
    requires forall n :: n in ids ==> n in g.nodes
    requires forall i, j :: 0 <= i < j < |ids| ==> ids[i] != ids[j]
    ensures multiset(Writers(g, ids, s))[m] == if m in ids then multiset(g.nodes[m].writtenStates)[s] else 0
  {
    if ids != [] {
      var init, n := ids[..|ids| - 1], ids[|ids| - 1];
      assert ids == init + [n];
      WritersCount(g, init, s, m);
      RepeatsCount(n, g.nodes[n].writtenStates, s, m);
      assert m in ids <==> m in init || m == n;
    }
  }

  function WritersIn(writers: map<string, seq<NodeId>>, s: string): seq<NodeId> {
    if s in writers then writers[s] else []
  }

  lemma RepeatsOneMore(n: NodeId, states: seq<string>, k: nat, s: string)
    requires k < |states|
    ensures Repeats(n, states[..k + 1], s) == Repeats(n, states[..k], s) + (if states[k] == s then [n] else [])
  {
    assert states[..k + 1][..k] == states[..k];
  }

  lemma WriterOnceMore(writers: map<string, seq<NodeId>>, prior: seq<NodeId>, n: NodeId, states: seq<string>, k: nat,
                       s: string)
    requires k < |states| && WritersIn(writers, s) == prior + Repeats(n, states[..k], s)
    ensures WritersIn(writers[states[k] := WritersIn(writers, states[k]) + [n]], s) ==
            prior + Repeats(n, states[..k + 1], s)
  {
    RepeatsOneMore(n, states, k, s);
    var more := writers[states[k] := WritersIn(writers, states[k]) + [n]];
    if states[k] == s {
      assert WritersIn(more, s) == WritersIn(writers, s) + [n];
    } else {
      assert WritersIn(more, s) == WritersIn(writers, s);
    }
  }

  /** Enters `n` for each state it writes. */
  method AddWriter(before: map<string, seq<NodeId>>, n: NodeId, states: seq<string>)
    returns (writers: map<string, seq<NodeId>>)
    ensures forall s :: WritersIn(writers, s) == WritersIn(before, s) + Repeats(n, states, s)
  {
    writers := before;
    for k := 0 to |states|
      invariant forall s :: WritersIn(writers, s) == WritersIn(before, s) + Repeats(n, states[..k], s)
    {
      ghost var previous := writers;
      writers := writers[states[k] := WritersIn(writers, states[k]) + [n]];
      forall s ensures WritersIn(writers, s) == WritersIn(before, s) + Repeats(n, states[..k + 1], s) {
        assert WritersIn(previous, s) == WritersIn(before, s) + Repeats(n, states[..k], s);
        WriterOnceMore(previous, WritersIn(before, s), n, states, k, s);
      }
    }
    assert states[..|states|] == states;
  }

  /** Groups the writers by state. */
  method WritersByState(g: Graph) returns (writers: map<string, seq<NodeId>>)
    requires g.Valid()
    ensures forall s :: WritersIn(writers, s) == Writers(g, g.order, s)
  {
    writers := map[];
    for i := 0 to |g.order|
      invariant forall s :: WritersIn(writers, s) == Writers(g, g.order[..i], s)
    {
      assert g.order[i] in g.order;
      assert g.order[..i + 1][..i] == g.order[..i];
      ghost var before := writers;
      writers := AddWriter(writers, g.order[i], g.nodes[g.order[i]].writtenStates);
      forall s ensures WritersIn(writers, s) == Writers(g, g.order[..i + 1], s) {
        assert WritersIn(before, s) == Writers(g, g.order[..i], s);
      }
    }
    assert g.order[..|g.order|] == g.order;
  }

  /** The writers that feed the reading node. */
  function ReachableWriters(writers: seq<NodeId>, reader: NodeId, reachability: map<NodeId, set<NodeId>>): seq<NodeId> {
    if writers == [] then []
    else
      var w := writers[0];
      (if w != reader && w in reachability && reader in reachability[w] then [w] else [])
      + ReachableWriters(writers[1..], reader, reachability)
  }

  /** `reachability` answers every reachability question between nodes. */
  ghost predicate IsReachability(g: Graph, reachability: map<NodeId, set<NodeId>>) {
    && reachability.Keys == g.nodes.Keys
    && forall m, n {:trigger n in reachability[m]} :: m in g.nodes ==> (n in reachability[m] <==> Reaches(g, m, n))
  }

  lemma {:induction false} ReachableWritersCount(g: Graph, writers: seq<NodeId>, reader: NodeId,
                                                 reachability: map<NodeId, set<NodeId>>, m: NodeId)
    requires IsReachability(g, reachability) && forall w :: w in writers ==> w in g.nodes
    ensures multiset(ReachableWriters(writers, reader, reachability))[m] ==
            if m in g.nodes && Feeds(g, m, reader) then multiset(writers)[m] else 0
  {
    if writers != [] {
      assert writers == [writers[0]] + writers[1..];
      ReachableWritersCount(g, writers[1..], reader, reachability, m);
    }
  }

  /** Some two positions of `ids` hold unordered nodes. */
  ghost predicate HasUnorderedPair(g: Graph, ids: seq<NodeId>) {
    exists i, j :: 0 <= i < j < |ids| && Unordered(g, ids[i], ids[j])
  }

  /** The test on one pair, as far as the collected maps tell. */
  ghost predicate PairIsUnordered(l: NodeId, r: NodeId, reachability: map<NodeId, set<NodeId>>, sigs: SignatureMap)
    requires l in reachability && r in reachability
  {
    r !in reachability[l] && l !in reachability[r] && !SignaturesExclude(l, r, sigs)
  }

  lemma PairTestIsExact(g: Graph, ids: seq<NodeId>, reachability: map<NodeId, set<NodeId>>, sigs: SignatureMap)
    requires IsReachability(g, reachability) && AllRealised(g, sigs) && Dominates(g, sigs)
    requires forall i {:trigger ids[i]} :: 0 <= i < |ids| ==> ids[i] in reachability
    ensures (exists i, j :: 0 <= i < j < |ids| && PairIsUnordered(ids[i], ids[j], reachability, sigs))
            <==> HasUnorderedPair(g, ids)
  {
    forall i, j | 0 <= i < j < |ids|
      ensures PairIsUnordered(ids[i], ids[j], reachability, sigs) <==> Unordered(g, ids[i], ids[j])
    {
      ExclusionIsExact(g, sigs, ids[i], ids[j]);
    }
  }

  method HasUnorderedWriterPair(ghost g: Graph, ids: seq<NodeId>, reachability: map<NodeId, set<NodeId>>,
                                sigs: SignatureMap)
    returns (found: bool)
    requires IsReachability(g, reachability) && AllRealised(g, sigs) && Dominates(g, sigs)
    requires forall i {:trigger ids[i]} :: 0 <= i < |ids| ==> ids[i] in reachability
    ensures found <==> HasUnorderedPair(g, ids)
  {
    PairTestIsExact(g, ids, reachability, sigs);
    for i := 0 to |ids|
      invariant forall a, b :: 0 <= a < i && a < b < |ids| ==> !PairIsUnordered(ids[a], ids[b], reachability, sigs)
    {
      for j := i + 1 to |ids|
        invariant forall b :: i < b < j ==> !PairIsUnordered(ids[i], ids[b], reachability, sigs)
      {
        if ids[j] !in reachability[ids[i]] && ids[i] !in reachability[ids[j]] {
          var exclusive := AreMutuallyExclusiveBranchWriters(ids[i], ids[j], sigs);
          if !exclusive {
            return true;
          }
        }
      }
    }
    return false;
  }

  lemma TwoPositions(ids: seq<NodeId>, l: NodeId, r: NodeId) returns (i: nat, j: nat)
    requires if l == r then multiset(ids)[l] >= 2 else l in ids && r in ids
    ensures i < |ids| && j < |ids| && i != j && ids[i] == l && ids[j] == r
  {
    i :| i < |ids| && ids[i] == l;
    if l == r {
      assert ids == ids[..i] + [ids[i]] + ids[i + 1..];
      assert l in ids[..i] || l in ids[i + 1..];
      if l in ids[..i] {
        j :| j < i && ids[..i][j] == r;
      } else {
        var k: nat :| k < |ids[i + 1..]| && ids[i + 1..][k] == r;
        j := i + 1 + k;
      }
    } else {
      j :| j < |ids| && ids[j] == r;
    }
  }

  lemma PositionsCount(ids: seq<NodeId>, i: nat, j: nat)
    requires i < j < |ids|
    ensures if ids[i] == ids[j] then multiset(ids)[ids[i]] >= 2
            else multiset(ids)[ids[i]] >= 1 && multiset(ids)[ids[j]] >= 1
  {
    assert ids == ids[..i] + [ids[i]] + ids[i + 1..j] + [ids[j]] + ids[j + 1..];
  }

  /** How often each node stands in the list the pair search is given. */
  ghost predicate IsFeederList(g: Graph, ids: seq<NodeId>, reader: NodeId, s: string) {
    forall m :: multiset(ids)[m] ==
      if m in g.nodes && Feeds(g, m, reader) then multiset(g.nodes[m].writtenStates)[s] else 0
  }

  lemma ReachableWritersAreFeeders(g: Graph, reader: NodeId, s: string, reachability: map<NodeId, set<NodeId>>)
    requires g.Valid() && IsReachability(g, reachability)
    ensures IsFeederList(g, ReachableWriters(Writers(g, g.order, s), reader, reachability), reader, s)
  {
    var all := Writers(g, g.order, s);
    forall w | w in all ensures w in g.nodes {
      WritersCount(g, g.order, s, w);
      assert multiset(all)[w] > 0;
    }
    var ids := ReachableWriters(all, reader, reachability);
    forall m
      ensures multiset(ids)[m] ==
              if m in g.nodes && Feeds(g, m, reader) then multiset(g.nodes[m].writtenStates)[s] else 0
    {
      WritersCount(g, g.order, s, m);
      ReachableWritersCount(g, all, reader, reachability, m);
    }
  }

  lemma PairMakesAmbiguous(g: Graph, ids: seq<NodeId>, reader: NodeId, s: string, i: nat, j: nat)
    requires IsFeederList(g, ids, reader, s) && i < j < |ids| && Unordered(g, ids[i], ids[j])
    ensures Ambiguous(g, reader, s)
  {
    PositionsCount(ids, i, j);
    var l, r := ids[i], ids[j];
    assert multiset(ids)[l] > 0 && multiset(ids)[r] > 0;
    assert TwoWrites(g, l, r, s);
  }

  lemma AmbiguousMakesPair(g: Graph, ids: seq<NodeId>, reader: NodeId, s: string)
    requires IsFeederList(g, ids, reader, s) && Ambiguous(g, reader, s)
    ensures HasUnorderedPair(g, ids)
  {
    var l, r :| TwoWrites(g, l, r, s) && Feeds(g, l, reader) && Feeds(g, r, reader) && Unordered(g, l, r);
    assert multiset(ids)[l] == multiset(g.nodes[l].writtenStates)[s];
    assert multiset(ids)[r] == multiset(g.nodes[r].writtenStates)[s];
    assert l in multiset(ids) && r in multiset(ids);
    var i, j := TwoPositions(ids, l, r);
    if i > j {
      ExclusiveIsSymmetric(g, r, l);
      assert Unordered(g, ids[j], ids[i]);
    }
  }

  /** The pair search on the reader's writer list decides ambiguity. */
  lemma PairSearchDecides(g: Graph, reader: NodeId, s: string, reachability: map<NodeId, set<NodeId>>)
    requires g.Valid() && IsReachability(g, reachability)
    ensures var ids := ReachableWriters(Writers(g, g.order, s), reader, reachability);
            && (forall i {:trigger ids[i]} :: 0 <= i < |ids| ==> ids[i] in reachability)
            && (HasUnorderedPair(g, ids) <==> Ambiguous(g, reader, s))
  {
    var ids := ReachableWriters(Writers(g, g.order, s), reader, reachability);
    ReachableWritersAreFeeders(g, reader, s, reachability);
    forall i | 0 <= i < |ids| ensures ids[i] in reachability {
      assert multiset(ids)[ids[i]] > 0;
    }
    if HasUnorderedPair(g, ids) {
      var i, j :| 0 <= i < j < |ids| && Unordered(g, ids[i], ids[j]);
      PairMakesAmbiguous(g, ids, reader, s, i, j);
    } else if Ambiguous(g, reader, s) {
      AmbiguousMakesPair(g, ids, reader, s);
    }
  }

  // ---------- the report ----------

  datatype AmbiguousStateRead = AmbiguousStateRead(node: NodeId, state: string)

  /** The ambiguous ones among `states` read by `n`, in order. */
  ghost function FlaggedReads(g: Graph, n: NodeId, states: seq<string>): seq<AmbiguousStateRead> {
    if states == [] then []
    else
      var s := states[|states| - 1];
      FlaggedReads(g, n, states[..|states| - 1]) + (if Ambiguous(g, n, s) then [AmbiguousStateRead(n, s)] else [])
  }

  /** All ambiguous reads of the nodes `ids`, in order. */
  ghost function Flagged(g: Graph, ids: seq<NodeId>): seq<AmbiguousStateRead>
    requires forall n :: n in ids ==> n in g.nodes
  {
    if ids == [] then []
    else
      var n := ids[|ids| - 1];
      Flagged(g, ids[..|ids| - 1]) + FlaggedReads(g, n, g.nodes[n].readStates)
  }

  /** Where a read stands: which node, and which of its bindings. */
  datatype Place = Place(node: nat, binding: nat)
  {
    predicate Before(other: Place) {
      node < other.node || (node == other.node && binding < other.binding)
    }
  }

  /** A read and where it stands. */
  datatype Spot = Spot(place: Place, read: AmbiguousStateRead)

  /** The graph has that read at that place, and it is ambiguous. */
  ghost predicate IsAmbiguousAt(g: Graph, x: Spot) {
    && x.place.node < |g.order| && g.order[x.place.node] == x.read.node && x.read.node in g.nodes
    && x.place.binding < |g.nodes[x.read.node].readStates|
    && g.nodes[x.read.node].readStates[x.place.binding] == x.read.state
    && Ambiguous(g, x.read.node, x.read.state)
  }

  ghost function AmbiguousSpots(g: Graph): iset<Spot> {
    iset x | IsAmbiguousAt(g, x)
  }

  /** The report has one entry for each of the spots and no other, in the order of their
      places. */
  ghost predicate Lists(spots: iset<Spot>, report: seq<AmbiguousStateRead>, places: seq<Place>) {
    && |places| == |report|
    && (forall k :: 0 <= k < |report| ==> Spot(places[k], report[k]) in spots)
    && (forall j, k :: 0 <= j < k < |places| ==> places[j].Before(places[k]))
    && (forall x :: x in spots ==> x.place in places)
  }

  lemma ListsJoined(early: iset<Spot>, late: iset<Spot>, report: seq<AmbiguousStateRead>, places: seq<Place>,
                    more: seq<AmbiguousStateRead>, morePlaces: seq<Place>)
    requires Lists(early, report, places) && Lists(late, more, morePlaces)
    requires forall x, y :: x in early && y in late ==> x.place.Before(y.place)
    ensures Lists(early + late, report + more, places + morePlaces)
  {
    forall j, k | 0 <= j < |places| && 0 <= k < |morePlaces| ensures places[j].Before(morePlaces[k]) {
      assert Spot(places[j], report[j]) in early && Spot(morePlaces[k], more[k]) in late;
    }
  }

  ghost function SpotsBefore(g: Graph, nodes: nat): iset<Spot> {
    iset x | IsAmbiguousAt(g, x) && x.place.node < nodes
  }

  ghost function SpotsIn(g: Graph, i: nat, bindings: nat): iset<Spot> {
    iset x | IsAmbiguousAt(g, x) && x.place.node == i && x.place.binding < bindings
  }

  /** The spot of one binding, if it is ambiguous. */
  ghost function SpotAt(g: Graph, i: nat, b: nat): iset<Spot> {
    iset x | IsAmbiguousAt(g, x) && x.place == Place(i, b)
  }

  lemma OneBinding(g: Graph, i: nat, b: nat)
    requires i < |g.order| && g.order[i] in g.nodes && b < |g.nodes[g.order[i]].readStates|
    ensures var r := AmbiguousStateRead(g.order[i], g.nodes[g.order[i]].readStates[b]);
            if Ambiguous(g, r.node, r.state) then Lists(SpotAt(g, i, b), [r], [Place(i, b)])
            else Lists(SpotAt(g, i, b), [], [])
  {
    var r := AmbiguousStateRead(g.order[i], g.nodes[g.order[i]].readStates[b]);
    forall x | x in SpotAt(g, i, b) ensures x == Spot(Place(i, b), r) {
    }
    if Ambiguous(g, r.node, r.state) {
      assert IsAmbiguousAt(g, Spot(Place(i, b), r));
    }
  }

  lemma {:induction false} PlacesOfReads(g: Graph, i: nat, bindings: nat) returns (places: seq<Place>)
    requires g.Valid() && i < |g.order| && g.order[i] in g.nodes
    requires bindings <= |g.nodes[g.order[i]].readStates|
    ensures Lists(SpotsIn(g, i, bindings),
                  FlaggedReads(g, g.order[i], g.nodes[g.order[i]].readStates[..bindings]), places)
  {
    var n := g.order[i];
    var states := g.nodes[n].readStates;
    places := [];
    if bindings > 0 {
      var b := bindings - 1;
      places := PlacesOfReads(g, i, b);
      assert states[..bindings][..b] == states[..b];
      OneBinding(g, i, b);
      var own := if Ambiguous(g, n, states[b]) then [AmbiguousStateRead(n, states[b])] else [];
      var ownPlaces := if Ambiguous(g, n, states[b]) then [Place(i, b)] else [];
      ListsJoined(SpotsIn(g, i, b), SpotAt(g, i, b), FlaggedReads(g, n, states[..b]), places, own, ownPlaces);
      assert SpotsIn(g, i, bindings) == SpotsIn(g, i, b) + SpotAt(g, i, b);
      places := places + ownPlaces;
    }
  }

  lemma {:induction false} PlacesOfReport(g: Graph, nodes: nat) returns (places: seq<Place>)
    requires g.Valid() && nodes <= |g.order| && forall n :: n in g.order[..nodes] ==> n in g.nodes
    ensures Lists(SpotsBefore(g, nodes), Flagged(g, g.order[..nodes]), places)
  {
    places := [];
    if nodes > 0 {
      var i := nodes - 1;
      assert g.order[..nodes][..i] == g.order[..i] && g.order[i] in g.order;
      places := PlacesOfReport(g, i);
      var states := g.nodes[g.order[i]].readStates;
      assert states[..|states|] == states;
      var own := PlacesOfReads(g, i, |states|);
      ListsJoined(SpotsBefore(g, i), SpotsIn(g, i, |states|), Flagged(g, g.order[..i]), places,
                  FlaggedReads(g, g.order[i], states), own);
      assert SpotsBefore(g, nodes) == SpotsBefore(g, i) + SpotsIn(g, i, |states|);
      places := places + own;
    }
  }

  lemma {:induction false} FlaggedReadsCount(g: Graph, n: NodeId, states: seq<string>, r: AmbiguousStateRead)
    ensures multiset(FlaggedReads(g, n, states))[r] ==
            if r.node == n && Ambiguous(g, n, r.state) then multiset(states)[r.state] else 0
  {
    if states != [] {
      var init := states[..|states| - 1];
      FlaggedReadsCount(g, n, init, r);
      assert states == init + [states[|states| - 1]];
    }
  }

  /** How often a read is reported: as often as its node lists it, if it is ambiguous. */
  ghost function TimesReported(g: Graph, r: AmbiguousStateRead): nat {
    if r.node in g.nodes && Ambiguous(g, r.node, r.state) then multiset(g.nodes[r.node].readStates)[r.state] else 0
  }

  lemma {:induction false} FlaggedCount(g: Graph, ids: seq<NodeId>, r: AmbiguousStateRead)
    requires forall n :: n in ids ==> n in g.nodes
    requires forall i, j :: 0 <= i < j < |ids| ==> ids[i] != ids[j]
    ensures multiset(Flagged(g, ids))[r] == if r.node in ids then TimesReported(g, r) else 0
  {
    if ids != [] {
      var init, n := ids[..|ids| - 1], ids[|ids| - 1];
      FlaggedCount(g, init, r);
      FlaggedReadsCount(g, n, g.nodes[n].readStates, r);
      assert ids == init + [n];
    }
  }

  /** The flagged reads are the ambiguous ones, each as often as it is listed. */
  lemma FlaggedIsReport(g: Graph) returns (places: seq<Place>)
    requires g.Valid()
    ensures Lists(AmbiguousSpots(g), Flagged(g, g.order), places)
    ensures forall r :: multiset(Flagged(g, g.order))[r] == TimesReported(g, r)
  {
    assert g.order[..|g.order|] == g.order;
    places := PlacesOfReport(g, |g.order|);
    assert SpotsBefore(g, |g.order|) == AmbiguousSpots(g);
    forall r ensures multiset(Flagged(g, g.order))[r] == TimesReported(g, r) {
      FlaggedCount(g, g.order, r);
    }
  }

  method CollectReachability(g: Graph) returns (reachability: map<NodeId, set<NodeId>>)
    requires g.Valid()
    ensures IsReachability(g, reachability)
  {
    var successors := BuildSuccessorMap(g);
    reachability := map[];
    for i := 0 to |g.order|
      invariant forall m :: m in reachability <==> m in g.order[..i]
      invariant forall m, n {:trigger n in reachability[m]} :: m in reachability ==>
        (n in reachability[m] <==> Reaches(g, m, n))
    {
      assert g.order[i] in g.order;
      assert g.order[..i + 1] == g.order[..i] + [g.order[i]];
      var reached := CollectReachableNodes(g, g.order[i], successors);
      reachability := reachability[g.order[i] := reached];
    }
    assert g.order[..|g.order|] == g.order;
  }

  /** Whether some two of the state's writers that feed the reading node are unordered. */
  method IsAmbiguousRead(g: Graph, n: NodeId, s: string, writers: map<string, seq<NodeId>>,
                         reachability: map<NodeId, set<NodeId>>, sigs: SignatureMap)
    returns (ambiguous: bool)
    requires g.Valid() && IsReachability(g, reachability) && AllRealised(g, sigs) && Dominates(g, sigs)
    requires WritersIn(writers, s) == Writers(g, g.order, s)
    ensures ambiguous <==> Ambiguous(g, n, s)
  {
    PairSearchDecides(g, n, s, reachability);
    var reachable := ReachableWriters(WritersIn(writers, s), n, reachability);
    ambiguous := HasUnorderedWriterPair(g, reachable, reachability, sigs);
  }

  /** The ambiguous reads of one node. */
  method FindAmbiguousReadsOf(g: Graph, n: NodeId, states: seq<string>, writers: map<string, seq<NodeId>>,
                              reachability: map<NodeId, set<NodeId>>, sigs: SignatureMap)
    returns (report: seq<AmbiguousStateRead>)
    requires g.Valid() && IsReachability(g, reachability) && AllRealised(g, sigs) && Dominates(g, sigs)
    requires forall s :: WritersIn(writers, s) == Writers(g, g.order, s)
    ensures report == FlaggedReads(g, n, states)
  {
    report := [];
    for k := 0 to |states|
      invariant report == FlaggedReads(g, n, states[..k])
    {
      assert states[..k + 1][..k] == states[..k];
      var ambiguous := IsAmbiguousRead(g, n, states[k], writers, reachability, sigs);
      if ambiguous {
        report := report + [AmbiguousStateRead(n, states[k])];
      }
    }
    assert states[..|states|] == states;
  }

  /** Reports exactly the ambiguous reads, each once for every binding, in the order of
      nodes and bindings. */
  method FindAmbiguousStateReads(g: Graph) returns (report: seq<AmbiguousStateRead>, ghost places: seq<Place>)
    requires g.Valid()
    ensures report == Flagged(g, g.order)
    ensures Lists(AmbiguousSpots(g), report, places)
    ensures forall r :: multiset(report)[r] == TimesReported(g, r)
  {
    var reachability := CollectReachability(g);
    var sigs := CollectBranchPathSignatures(g);
    var writers := WritersByState(g);
    report := [];
    for i := 0 to |g.order|
      invariant report == Flagged(g, g.order[..i])
    {
      var n := g.order[i];
      assert n in g.order;
      assert g.order[..i + 1][..i] == g.order[..i];
      var found := FindAmbiguousReadsOf(g, n, g.nodes[n].readStates, writers, reachability, sigs);
      report := report + found;
    }
    assert g.order[..|g.order|] == g.order;
    places := FlaggedIsReport(g);
  }

  lemma {:induction false} FlaggedReadsMembers(g: Graph, n: NodeId, states: seq<string>, r: AmbiguousStateRead)
    ensures r in FlaggedReads(g, n, states) <==> r.node == n && r.state in states && Ambiguous(g, n, r.state)
  {
    if states != [] {
      var init := states[..|states| - 1];
      FlaggedReadsMembers(g, n, init, r);
      assert states == init + [states[|states| - 1]];
    }
  }

  lemma {:induction false} FlaggedMembers(g: Graph, ids: seq<NodeId>, r: AmbiguousStateRead)
    requires forall n :: n in ids ==> n in g.nodes
    ensures r in Flagged(g, ids) <==>
            r.node in ids && r.state in g.nodes[r.node].readStates && Ambiguous(g, r.node, r.state)
  {
    if ids != [] {
      var init, n := ids[..|ids| - 1], ids[|ids| - 1];
      FlaggedMembers(g, init, r);
      FlaggedReadsMembers(g, n, g.nodes[n].readStates, r);
      assert ids == init + [n];
    }
  }

  // ---------- independence of order ----------

  /** The same graph, with nodes, edges, branches and bindings listed in another order. */
  ghost predicate SameUpToOrder(g: Graph, h: Graph) {
    && g.nodes.Keys == h.nodes.Keys
    && (forall n :: n in g.nodes ==>
          && multiset(g.nodes[n].readStates) == multiset(h.nodes[n].readStates)
          && multiset(g.nodes[n].writtenStates) == multiset(h.nodes[n].writtenStates))
    && multiset(g.edges) == multiset(h.edges)
    && (forall n, b :: g.HasBranch(n, b) <==> h.HasBranch(n, b))
  }

  lemma SameSteps(g: Graph, h: Graph)
    requires SameUpToOrder(g, h)
    ensures forall n, t :: g.Has(n, t) <==> h.Has(n, t)
  {
    forall e ensures e in g.edges <==> e in h.edges {
      assert e in multiset(g.edges) <==> e in g.edges;
      assert e in multiset(h.edges) <==> e in h.edges;
    }
  }

  lemma {:induction false} SameWalk(g: Graph, h: Graph, w: Walk)
    requires SameUpToOrder(g, h)
    ensures w.In(g) <==> w.In(h)
  {
    SameSteps(g, h);
    if w.Extend? {
      SameWalk(g, h, w.prefix);
    }
  }

  lemma SameEntries(g: Graph, h: Graph, n: NodeId)
    requires SameUpToOrder(g, h)
    ensures g.IsEntry(n) <==> h.IsEntry(n)
  {
    SameSteps(g, h);
    assert forall u, v :: g.Linked(u, v) <==> h.Linked(u, v);
    assert forall m :: g.HasIncoming(m) <==> h.HasIncoming(m);
  }

  lemma SameVerdicts(g: Graph, h: Graph)
    requires SameUpToOrder(g, h)
    ensures forall l, r :: Reaches(g, l, r) <==> Reaches(h, l, r)
    ensures forall l, r :: Exclusive(g, l, r) <==> Exclusive(h, l, r)
  {
    forall w: Walk ensures w.In(g) <==> w.In(h) {
      SameWalk(g, h, w);
    }
    forall w: Walk ensures EntryWalk(g, w) <==> EntryWalk(h, w) {
      SameEntries(g, h, w.Origin());
    }
    forall w: Walk, l, r ensures LeadsTo(g, w, l, r) <==> LeadsTo(h, w, l, r) {
    }
  }

  lemma SameTwoWrites(g: Graph, h: Graph, l: NodeId, r: NodeId, s: string)
    requires SameUpToOrder(g, h)
    ensures TwoWrites(g, l, r, s) <==> TwoWrites(h, l, r, s)
  {
    if l in g.nodes && r in g.nodes {
      assert s in multiset(g.nodes[l].writtenStates) <==> s in multiset(h.nodes[l].writtenStates);
      assert s in multiset(g.nodes[r].writtenStates) <==> s in multiset(h.nodes[r].writtenStates);
    }
  }

  /** What is reported, and how often, does not depend on any listing order. */
  lemma ReportIgnoresOrder(g: Graph, h: Graph)
    requires g.Valid() && h.Valid() && SameUpToOrder(g, h)
    ensures multiset(Flagged(g, g.order)) == multiset(Flagged(h, h.order))
  {
    SameVerdicts(g, h);
    forall r ensures multiset(Flagged(g, g.order))[r] == multiset(Flagged(h, h.order))[r] {
      FlaggedCount(g, g.order, r);
      FlaggedCount(h, h.order, r);
      SameAmbiguous(g, h, r.node, r.state);
    }
  }

  lemma SameAmbiguous(g: Graph, h: Graph, n: NodeId, s: string)
    requires SameUpToOrder(g, h)
    ensures Ambiguous(g, n, s) <==> Ambiguous(h, n, s)
  {
    SameVerdicts(g, h);
    forall a, b ensures TwoWrites(g, a, b, s) <==> TwoWrites(h, a, b, s) {
      SameTwoWrites(g, h, a, b, s);
    }
    assert forall a, b :: Unordered(g, a, b) <==> Unordered(h, a, b);
    assert forall a :: Feeds(g, a, n) <==> Feeds(h, a, n);
  }
}
