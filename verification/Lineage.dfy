/** Chat sessions continue one another; a session's lineage is followed up to its root
    and down to its tip, on tables whose parent links may dangle or run in circles. */
module Lineage {
  import opened Basics
  import opened TextOrder

  datatype Session = Session(
    parent: string,      // empty when there is none
    createdAt: string,
    updatedAt: string,
    endedAt: string,
    endReason: string,
    source: string,
    archived: bool,
    deleted: bool,
    rowid: nat)

  type Sessions = map<string, Session>

  // ---------- ancestors ----------

  /** The parent a session names; the empty text when it names none or is not stored. */
  function Up(t: Sessions, s: string): string {
    if s != "" && s in t then t[s].parent else ""
  }

  function Ancestor(t: Sessions, s: string, k: nat): string {
    if k == 0 then s else Up(t, Ancestor(t, s, k - 1))
  }

  /** The links from `s` lead back to `s`. */
  ghost predicate OnCycle(t: Sessions, s: string) {
    s != "" && exists m: nat :: m > 0 && Ancestor(t, s, m) == s
  }

  /** The k-th ancestor is stored and has no parent. */
  predicate EndsAt(t: Sessions, s: string, k: nat) {
    Ancestor(t, s, k) != "" && Ancestor(t, s, k) in t && Ancestor(t, s, k + 1) == ""
  }

  /** The k-th ancestor is the first that lies on a cycle. */
  ghost predicate CyclesAt(t: Sessions, s: string, k: nat) {
    OnCycle(t, Ancestor(t, s, k)) && forall j :: 0 <= j < k ==> !OnCycle(t, Ancestor(t, s, j))
  }

  /** Every ancestor is stored, up to one without a parent. */
  ghost predicate Grounded(t: Sessions, s: string) {
    exists k: nat :: EndsAt(t, s, k)
  }

  ghost predicate Circular(t: Sessions, s: string) {
    exists k: nat :: CyclesAt(t, s, k)
  }

  /** The ancestor without a parent, or the first ancestor on a cycle, or the session
      itself when its links lead out of the table. */
  ghost function Root(t: Sessions, s: string): string {
    if k: nat :| EndsAt(t, s, k) then Ancestor(t, s, k)
    else if k: nat :| CyclesAt(t, s, k) then Ancestor(t, s, k)
    else s
  }

  lemma {:induction false} AncestorOfAncestor(t: Sessions, s: string, i: nat, j: nat)
    ensures Ancestor(t, Ancestor(t, s, i), j) == Ancestor(t, s, i + j)
  {
    if j > 0 {
      AncestorOfAncestor(t, s, i, j - 1);
    }
  }

  lemma {:induction false} NothingAbove(t: Sessions, s: string, i: nat, j: nat)
    requires Ancestor(t, s, i) == "" && i <= j
    ensures Ancestor(t, s, j) == ""
    decreases j
  {
    if i < j {
      NothingAbove(t, s, i, j - 1);
    }
  }

  /** Going round a cycle any number of times. */
  lemma {:induction false} RoundAndRound(t: Sessions, s: string, m: nat, times: nat)
    requires Ancestor(t, s, m) == s
    ensures Ancestor(t, s, m * times) == s
  {
    if times > 0 {
      RoundAndRound(t, s, m, times - 1);
      AncestorOfAncestor(t, s, m * (times - 1), m);
      assert m * (times - 1) + m == m * times;
    }
  }

  lemma CycleNeverEnds(t: Sessions, s: string, k: nat)
    requires OnCycle(t, s)
    ensures Ancestor(t, s, k) != ""
  {
    var m: nat :| m > 0 && Ancestor(t, s, m) == s;
    RoundAndRound(t, s, m, k);
    assert m * k >= k;
    if Ancestor(t, s, k) == "" {
      NothingAbove(t, s, k, m * k);
    }
  }

  /** Links end in one place only. */
  lemma EndIsUnique(t: Sessions, s: string, i: nat, j: nat)
    requires EndsAt(t, s, i) && EndsAt(t, s, j)
    ensures i == j
  {
    if i < j {
      NothingAbove(t, s, i + 1, j);
    } else if j < i {
      NothingAbove(t, s, j + 1, i);
    }
  }

  lemma EndOrCycle(t: Sessions, s: string, i: nat, j: nat)
    requires EndsAt(t, s, i)
    ensures !OnCycle(t, Ancestor(t, s, j))
  {
    if OnCycle(t, Ancestor(t, s, j)) {
      CycleNeverEnds(t, Ancestor(t, s, j), i + 1);
      AncestorOfAncestor(t, s, j, i + 1);
      NothingAbove(t, s, i + 1, j + i + 1);
      assert false;
    }
  }

  lemma RootAtEnd(t: Sessions, s: string, k: nat)
    requires EndsAt(t, s, k)
    ensures Root(t, s) == Ancestor(t, s, k)
  {
    var i: nat :| EndsAt(t, s, i) && Root(t, s) == Ancestor(t, s, i);
    EndIsUnique(t, s, i, k);
  }

  lemma RootAtCycle(t: Sessions, s: string, k: nat)
    requires CyclesAt(t, s, k)
    ensures !Grounded(t, s) && Root(t, s) == Ancestor(t, s, k)
  {
    if i: nat :| EndsAt(t, s, i) {
      EndOrCycle(t, s, i, k);
    }
    var j: nat :| CyclesAt(t, s, j) && Root(t, s) == Ancestor(t, s, j);
    assert j == k;
  }

  lemma RootWhenDangling(t: Sessions, s: string, k: nat)
    requires forall j :: 0 <= j <= k ==> Ancestor(t, s, j) != ""
    requires Ancestor(t, s, k) !in t
    ensures !Grounded(t, s) && !Circular(t, s) && Root(t, s) == s
  {
    assert Ancestor(t, s, k + 1) == "";
    if i: nat :| EndsAt(t, s, i) {
      assert i >= k;
      if i > k { NothingAbove(t, s, k + 1, i); }
    }
    if i: nat :| CyclesAt(t, s, i) {
      CycleNeverEnds(t, Ancestor(t, s, i), k + 1);
      AncestorOfAncestor(t, s, i, k + 1);
      NothingAbove(t, s, k + 1, i + k + 1);
    }
  }

  // ---------- the search for the root ----------

  /** The first k ancestors, `s` among them, are stored and all different. */
  ghost predicate Climbed(t: Sessions, s: string, k: nat) {
    && (forall j :: 0 <= j < k ==> Ancestor(t, s, j) in t && Ancestor(t, s, j) != "")
    && (forall i, j :: 0 <= i < j < k ==> Ancestor(t, s, i) != Ancestor(t, s, j))
  }

  /** Once the climb comes back to the j-th ancestor it stays between there and the k-th. */
  lemma {:induction false} StaysOnCycle(t: Sessions, s: string, j: nat, k: nat, n: nat) returns (i: nat)
    requires j < k && Ancestor(t, s, k) == Ancestor(t, s, j) && j <= n
    ensures j <= i < k && Ancestor(t, s, n) == Ancestor(t, s, i)
  {
    if n < k {
      i := n;
    } else {
      i := StaysOnCycle(t, s, j, k, n - 1);
      i := if i + 1 < k then i + 1 else j;
    }
  }

  /** From a cycle, the session itself comes back after any number of steps. */
  lemma ComesBackLater(t: Sessions, s: string, steps: nat) returns (n: nat)
    requires OnCycle(t, s)
    ensures n >= steps && Ancestor(t, s, n) == s
  {
    var m: nat :| m > 0 && Ancestor(t, s, m) == s;
    RoundAndRound(t, s, m, steps);
    n := m * steps;
    assert n >= steps by {
      assert (m - 1) * steps >= 0;
    }
  }

  lemma ClimbedApart(t: Sessions, s: string, k: nat, i: nat, j: nat)
    requires Climbed(t, s, k) && i < j < k
    ensures Ancestor(t, s, i) != Ancestor(t, s, j)
  {
  }

  lemma ComesBackBetween(t: Sessions, s: string, l: nat, j: nat, k: nat) returns (i: nat)
    requires j < k && Ancestor(t, s, k) == Ancestor(t, s, j) && OnCycle(t, Ancestor(t, s, l))
    ensures j <= i < k && Ancestor(t, s, i) == Ancestor(t, s, l)
  {
    var n := ComesBackLater(t, Ancestor(t, s, l), j);
    AncestorOfAncestor(t, s, l, n);
    i := StaysOnCycle(t, s, j, k, l + n);
  }

  lemma BeforeRepeatNotOnCycle(t: Sessions, s: string, l: nat, j: nat, k: nat)
    requires Climbed(t, s, k) && l < j < k && Ancestor(t, s, k) == Ancestor(t, s, j)
    ensures !OnCycle(t, Ancestor(t, s, l))
  {
    if OnCycle(t, Ancestor(t, s, l)) {
      var i := ComesBackBetween(t, s, l, j, k);
      ClimbedApart(t, s, k, l, i);
    }
  }

  lemma RepeatIsOnCycle(t: Sessions, s: string, j: nat, k: nat)
    requires j < k && Ancestor(t, s, j) != "" && Ancestor(t, s, k) == Ancestor(t, s, j)
    ensures OnCycle(t, Ancestor(t, s, j))
  {
    AncestorOfAncestor(t, s, j, k - j);
  }

  /** The first repeated ancestor is the first one on a cycle. */
  lemma FirstRepeatIsFirstOnCycle(t: Sessions, s: string, j: nat, k: nat)
    requires Climbed(t, s, k) && j < k && Ancestor(t, s, k) == Ancestor(t, s, j)
    ensures CyclesAt(t, s, j)
  {
    RepeatIsOnCycle(t, s, j, k);
    forall l | 0 <= l < j ensures !OnCycle(t, Ancestor(t, s, l)) {
      BeforeRepeatNotOnCycle(t, s, l, j, k);
    }
  }

  /** Climbs until there is no parent, no such session, or a session seen before. */
  method ResolveSessionLineageRoot(t: Sessions, s: string) returns (root: string)
    ensures root == Root(t, s)
  {
    if s == "" {
      NoAncestors(t);
      return "";
    }
    var visited: set<string> := {};
    var current := s;
    ghost var k := 0;
    while current !in visited
      invariant current == Ancestor(t, s, k) && current != "" && Climbed(t, s, k)
      invariant forall x :: x in visited <==> exists j :: 0 <= j < k && Ancestor(t, s, j) == x
      invariant visited <= t.Keys
      decreases t.Keys - visited
    {
      visited := visited + {current};
      if current !in t {
        RootWhenDangling(t, s, k);
        return s;
      }
      var parent := t[current].parent;
      if parent == "" {
        RootAtEnd(t, s, k);
        return current;
      }
      current := parent;
      k := k + 1;
    }
    ghost var j :| 0 <= j < k && Ancestor(t, s, j) == current;
    FirstRepeatIsFirstOnCycle(t, s, j, k);
    RootAtCycle(t, s, j);
    return current;
  }

  lemma {:induction false} AncestorsOfNone(t: Sessions, k: nat)
    ensures Ancestor(t, "", k) == ""
  {
    if k > 0 {
      AncestorsOfNone(t, k - 1);
    }
  }

  lemma NoAncestors(t: Sessions)
    ensures Root(t, "") == ""
  {
    forall k: nat ensures Ancestor(t, "", k) == "" {
      AncestorsOfNone(t, k);
    }
  }

  // ---------- what the root is good for ----------

  /** The root of a root is that root, on every table. */
  lemma RootIsIdempotent(t: Sessions, s: string)
    ensures Root(t, Root(t, s)) == Root(t, s)
  {
    var r := Root(t, s);
    if k: nat :| EndsAt(t, s, k) {
      RootAtEnd(t, s, k);
      AncestorOfAncestor(t, s, k, 1);
      assert EndsAt(t, r, 0);
      RootAtEnd(t, r, 0);
    } else if k: nat :| CyclesAt(t, s, k) {
      RootAtCycle(t, s, k);
      assert CyclesAt(t, r, 0);
      RootAtCycle(t, r, 0);
    }
  }

  lemma ClimbOne(t: Sessions, s: string, k: nat)
    ensures Ancestor(t, Up(t, s), k) == Ancestor(t, s, k + 1)
  {
    AncestorOfAncestor(t, s, 1, k);
    assert Ancestor(t, s, 1) == Up(t, s);
  }

  lemma CycleParentOnCycle(t: Sessions, s: string)
    requires OnCycle(t, s)
    ensures OnCycle(t, Up(t, s))
  {
    var m: nat :| m > 0 && Ancestor(t, s, m) == s;
    CycleNeverEnds(t, s, 1);
    ClimbOne(t, s, m);
    assert Ancestor(t, Up(t, s), m) == Up(t, s);
  }

  /** A session and the parent it names have the same root exactly when the links end in
      a session without a parent, or run into a cycle that the session is not part of,
      or the session is its own parent. */
  lemma RootAlongLink(t: Sessions, s: string)
    requires s != "" && s in t && t[s].parent != ""
    ensures Root(t, s) == Root(t, t[s].parent) <==>
            Grounded(t, s) || (Circular(t, s) && !OnCycle(t, s)) || t[s].parent == s
  {
    var p := t[s].parent;
    assert Ancestor(t, s, 1) == p && Ancestor(t, s, 0) == s;
    if p == s {
    } else if k: nat :| EndsAt(t, s, k) {
      RootAtEnd(t, s, k);
      assert k > 0;
      ClimbOne(t, s, k - 1);
      ClimbOne(t, s, k);
      assert EndsAt(t, p, k - 1);
      RootAtEnd(t, p, k - 1);
    } else if k: nat :| CyclesAt(t, s, k) {
      RootAtCycle(t, s, k);
      if k == 0 {
        CycleParentOnCycle(t, s);
        assert CyclesAt(t, p, 0);
        RootAtCycle(t, p, 0);
      } else {
        forall j | 0 <= j <= k - 1 ensures Ancestor(t, p, j) == Ancestor(t, s, j + 1) {
          ClimbOne(t, s, j);
        }
        assert CyclesAt(t, p, k - 1);
        RootAtCycle(t, p, k - 1);
      }
    } else {
      assert Root(t, s) == s;
      var i := RootIsAncestor(t, p);
      ClimbOne(t, s, i);
      if Root(t, p) == s {
        OnCycleMeansCircular(t, s, i + 1);
        assert false;
      }
    }
  }

  lemma RootIsAncestor(t: Sessions, s: string) returns (k: nat)
    ensures Root(t, s) == Ancestor(t, s, k)
  {
    if i: nat :| EndsAt(t, s, i) {
      RootAtEnd(t, s, i);
      k := i;
    } else if i: nat :| CyclesAt(t, s, i) {
      RootAtCycle(t, s, i);
      k := i;
    } else {
      k := 0;
    }
  }

  lemma OnCycleMeansCircular(t: Sessions, s: string, m: nat)
    requires s != "" && m > 0 && Ancestor(t, s, m) == s
    ensures Circular(t, s)
  {
    assert Ancestor(t, s, 0) == s;
    assert CyclesAt(t, s, 0);
  }

  // ---------- the tip of a compressed lineage ----------

  const HIDDEN_SOURCES := {"tool"}

  /** The session was ended by compression and is still there. */
  predicate Compressed(t: Sessions, s: string) {
    s in t && !t[s].deleted && t[s].endReason == "compression"
  }

  /** `c` is a visible child that did not start before its parent ended. */
  predicate Continues(t: Sessions, s: string, c: string)
    requires s in t
  {
    && c in t && t[c].parent == s && !t[c].deleted && !t[c].archived && t[c].source !in HIDDEN_SOURCES
    && (t[s].endedAt == "" || t[c].createdAt == "" || !Less(t[c].createdAt, t[s].endedAt))
  }

  /** Whether `a` was created later; if at one time, updated later; if also at one time,
      added later. */
  predicate Newer(a: Session, b: Session) {
    || Less(b.createdAt, a.createdAt)
    || (a.createdAt == b.createdAt && Less(b.updatedAt, a.updatedAt))
    || (a.createdAt == b.createdAt && a.updatedAt == b.updatedAt && b.rowid < a.rowid)
  }

  /** `rowid` tells the sessions apart. */
  ghost predicate DistinctRows(t: Sessions) {
    forall a, b {:trigger t[a], t[b]} :: a in t && b in t && a != b ==> t[a].rowid != t[b].rowid
  }

  /** `c` is the newest continuation of the compressed session `s`. */
  ghost predicate IsNext(t: Sessions, s: string, c: string) {
    && Compressed(t, s) && Continues(t, s, c)
    && forall d :: d in t && Continues(t, s, d) && d != c ==> Newer(t[c], t[d])
  }

  ghost predicate HasNext(t: Sessions, s: string) {
    Compressed(t, s) && exists c :: Continues(t, s, c)
  }

  /** A child that may take its parent's place: visible, and not begun before the parent
      ended, as far as both times are known. */
  predicate MaySucceed(parent: string, p: Session, c: Session) {
    && c.parent == parent && !c.deleted && !c.archived && c.source != "tool"
    && !(p.endedAt != "" && c.createdAt != "" && Less(c.createdAt, p.endedAt))
  }

  /** What the next session is, field by field: a session that may succeed the compressed
      one, and among those that may, none was created later; of those created at the same
      time none was updated later; and of those none was added later. */
  lemma NextIsNewest(t: Sessions, s: string, c: string)
    requires IsNext(t, s, c)
    ensures s in t && !t[s].deleted && t[s].endReason == "compression"
    ensures c in t && MaySucceed(s, t[s], t[c])
    ensures forall d :: d in t && MaySucceed(s, t[s], t[d]) && d != c ==>
              && !Less(t[c].createdAt, t[d].createdAt)
              && (t[c].createdAt == t[d].createdAt ==> !Less(t[c].updatedAt, t[d].updatedAt))
              && (t[c].createdAt == t[d].createdAt && t[c].updatedAt == t[d].updatedAt ==> t[c].rowid > t[d].rowid)
  {
    forall d | d in t && MaySucceed(s, t[s], t[d]) && d != c
      ensures !Less(t[c].createdAt, t[d].createdAt)
      ensures t[c].createdAt == t[d].createdAt ==> !Less(t[c].updatedAt, t[d].updatedAt)
    {
      assert Newer(t[c], t[d]);
      if Less(t[d].createdAt, t[c].createdAt) {
        LessIsStrict(t[d].createdAt, t[c].createdAt);
      } else if Less(t[d].updatedAt, t[c].updatedAt) {
        LessIsStrict(t[d].updatedAt, t[c].updatedAt);
      }
    }
  }

  /** A compressed session has a next one exactly when some session may succeed it. */
  lemma NextExists(t: Sessions, s: string)
    ensures HasNext(t, s) <==>
            && s in t && !t[s].deleted && t[s].endReason == "compression"
            && exists c :: c in t && MaySucceed(s, t[s], t[c])
  {
    if s in t {
      forall c | c in t ensures Continues(t, s, c) <==> MaySucceed(s, t[s], t[c]) {
      }
    }
  }

  lemma NewerIsTotal(a: Session, b: Session)
    requires a.rowid != b.rowid
    ensures Newer(a, b) || Newer(b, a)
  {
    LessIsTotal(a.createdAt, b.createdAt);
    LessIsTotal(a.updatedAt, b.updatedAt);
  }

  lemma NewerIsTransitive(a: Session, b: Session, c: Session)
    requires Newer(a, b) && Newer(b, c)
    ensures Newer(a, c)
  {
    if Less(b.createdAt, a.createdAt) && Less(c.createdAt, b.createdAt) {
      LessIsTransitive(c.createdAt, b.createdAt, a.createdAt);
    }
    if Less(b.updatedAt, a.updatedAt) && Less(c.updatedAt, b.updatedAt) {
      LessIsTransitive(c.updatedAt, b.updatedAt, a.updatedAt);
    }
  }

  /** The query for the newest continuation. */
  method SelectNext(t: Sessions, s: string) returns (next: Option<string>)
    requires DistinctRows(t) && Compressed(t, s)
    ensures next.None? ==> !HasNext(t, s)
    ensures next.Some? ==> IsNext(t, s, next.value)
  {
    next := None;
    var rest := t.Keys;
    while rest != {}
      invariant rest <= t.Keys
      invariant next.None? ==> forall d :: d in t && d !in rest ==> !Continues(t, s, d)
      invariant next.Some? ==> Continues(t, s, next.value) && next.value !in rest
      invariant next.Some? ==> forall d :: d in t && d !in rest && Continues(t, s, d) && d != next.value ==>
        Newer(t[next.value], t[d])
      decreases |rest|
    {
      var c :| c in rest;
      rest := rest - {c};
      if Continues(t, s, c) {
        if next.None? {
          next := Some(c);
        } else {
          NewerIsTotal(t[c], t[next.value]);
          if Newer(t[c], t[next.value]) {
            forall d | d in t && d !in rest && Continues(t, s, d) && d != c && d != next.value
              ensures Newer(t[c], t[d])
            {
              NewerIsTransitive(t[c], t[next.value], t[d]);
            }
            next := Some(c);
          }
        }
      }
    }
  }

  /** From `s` through newest continuations to `tip`. */
  ghost predicate IsChain(t: Sessions, chain: seq<string>, s: string, tip: string) {
    && chain != [] && chain[0] == s && chain[|chain| - 1] == tip
    && forall i :: 0 <= i < |chain| - 1 ==> IsNext(t, chain[i], chain[i + 1])
  }

  /** Follows newest continuations until there is none, or one has been seen before. */
  method ResolveCompressedLineageTip(t: Sessions, s: string) returns (tip: string, ghost chain: seq<string>)
    requires DistinctRows(t) && "" !in t
    ensures s == "" ==> tip == ""
    ensures s != "" ==> IsChain(t, chain, s, tip)
    ensures s != "" ==> !HasNext(t, tip) || exists i :: 0 <= i < |chain| - 1 && chain[i] == tip
  {
    chain := [s];
    if s == "" {
      return "", chain;
    }
    var current := s;
    var visited: set<string> := {};
    while current !in visited
      invariant IsChain(t, chain, s, current)
      invariant forall x :: x in visited <==> x in chain[..|chain| - 1]
      invariant visited <= t.Keys
      decreases t.Keys - visited
    {
      if !Compressed(t, current) {
        return current, chain;
      }
      visited := visited + {current};
      var next := SelectNext(t, current);
      if next.None? {
        return current, chain;
      }
      ghost var before := chain;
      current := next.value;
      chain := chain + [current];
      assert chain[..|chain| - 1] == before == before[..|before| - 1] + [before[|before| - 1]];
    }
    return current, chain;
  }

  // ---------- one lineage, one root ----------

  /** Going down to a child keeps the links complete and the root the same. */
  lemma ContinuationKeepsRoot(t: Sessions, s: string, c: string)
    requires "" !in t && s in t && Continues(t, s, c) && Grounded(t, s)
    ensures Grounded(t, c) && Root(t, c) == Root(t, s)
  {
    var k: nat :| EndsAt(t, s, k);
    assert Up(t, c) == s;
    ClimbOne(t, c, k);
    ClimbOne(t, c, k + 1);
    assert EndsAt(t, c, k + 1);
    RootAtEnd(t, s, k);
    RootAtEnd(t, c, k + 1);
  }

  /** How many links a grounded session is below its root. */
  ghost function Depth(t: Sessions, s: string): nat
    requires Grounded(t, s)
  {
    var k: nat :| EndsAt(t, s, k); k
  }

  lemma ContinuationIsDeeper(t: Sessions, s: string, c: string)
    requires "" !in t && s in t && Continues(t, s, c) && Grounded(t, s)
    ensures Grounded(t, c) && Depth(t, c) == Depth(t, s) + 1
  {
    ContinuationKeepsRoot(t, s, c);
    var k := Depth(t, s);
    assert Up(t, c) == s;
    ClimbOne(t, c, k);
    ClimbOne(t, c, k + 1);
    assert EndsAt(t, c, k + 1);
    EndIsUnique(t, c, k + 1, Depth(t, c));
  }

  lemma {:induction false} ChainDescends(t: Sessions, chain: seq<string>, s: string, tip: string, i: nat)
    requires "" !in t && Grounded(t, s) && IsChain(t, chain, s, tip) && i < |chain|
    ensures Grounded(t, chain[i]) && Depth(t, chain[i]) == Depth(t, s) + i && Root(t, chain[i]) == Root(t, s)
  {
    if i > 0 {
      ChainDescends(t, chain, s, tip, i - 1);
      assert IsNext(t, chain[i - 1], chain[i - 1 + 1]);
      ContinuationKeepsRoot(t, chain[i - 1], chain[i]);
      ContinuationIsDeeper(t, chain[i - 1], chain[i]);
    }
  }

  /** Where the links are complete, the tip has its start's root, and is a tip: nothing
      continues it. */
  lemma TipOfGrounded(t: Sessions, chain: seq<string>, s: string, tip: string)
    requires "" !in t && Grounded(t, s) && IsChain(t, chain, s, tip)
    requires !HasNext(t, tip) || exists i :: 0 <= i < |chain| - 1 && chain[i] == tip
    ensures Root(t, tip) == Root(t, s) && !HasNext(t, tip)
  {
    ChainDescends(t, chain, s, tip, |chain| - 1);
    if i :| 0 <= i < |chain| - 1 && chain[i] == tip {
      ChainDescends(t, chain, s, tip, i);
    }
  }

  // ---------- discovering other lineages ----------

  /** A search hit; `hasMessages` tells whether the window around it shows any. */
  datatype Hit = Hit(sessionId: string, messageId: string, hasMessages: bool)

  datatype Entry = Entry(hit: Hit, lineageRoot: string)

  /** The lineage roots of the hits. */
  ghost function RootsOf(t: Sessions, hits: seq<Hit>): seq<string> {
    seq(|hits|, i requires 0 <= i < |hits| => Root(t, hits[i].sessionId))
  }

  /** What entries are told apart by. */
  function LineageKey(h: Hit, root: string): string {
    if root != "" then root else h.sessionId
  }

  /** The hit shows messages of another lineage than the current session's. */
  predicate Eligible(h: Hit, root: string, currentRoot: string) {
    h.hasMessages && (currentRoot == "" || root != currentRoot)
  }

  /** The lineages that have an entry. */
  function Keys(entries: seq<Entry>): set<string> {
    set e | e in entries :: e.lineageRoot
  }

  /** Entry `e` was made from hit `at[e]`, one of the first `upTo`; entries come in the
      order of their hits and belong to different lineages. */
  ghost predicate MadeFrom(hits: seq<Hit>, roots: seq<string>, upTo: nat, currentRoot: string, entries: seq<Entry>,
                           at: seq<nat>)
    requires upTo <= |hits| == |roots|
  {
    && |at| == |entries|
    && (forall e :: 0 <= e < |entries| ==>
          && at[e] < upTo && Eligible(hits[at[e]], roots[at[e]], currentRoot)
          && entries[e] == Entry(hits[at[e]], LineageKey(hits[at[e]], roots[at[e]])))
    && (forall d, e :: 0 <= d < e < |entries| ==> at[d] < at[e] && entries[d].lineageRoot != entries[e].lineageRoot)
  }

  /** An entry for the lineage `key` comes from hit `i` or an earlier one. */
  ghost predicate Stands(entries: seq<Entry>, at: seq<nat>, key: string, i: nat) {
    exists e :: 0 <= e < |entries| && e < |at| && entries[e].lineageRoot == key && at[e] <= i
  }

  /** Every eligible hit among the first `upTo` is stood for by its lineage's first one. */
  ghost predicate Complete(hits: seq<Hit>, roots: seq<string>, upTo: nat, currentRoot: string, entries: seq<Entry>,
                           at: seq<nat>)
    requires upTo <= |hits| == |roots|
  {
    forall i :: 0 <= i < upTo && Eligible(hits[i], roots[i], currentRoot) ==>
      Stands(entries, at, LineageKey(hits[i], roots[i]), i)
  }

  lemma SeenHitStands(hits: seq<Hit>, roots: seq<string>, k: nat, currentRoot: string,
                      entries: seq<Entry>, at: seq<nat>, key: string)
    requires k <= |hits| == |roots| && MadeFrom(hits, roots, k, currentRoot, entries, at) && key in Keys(entries)
    ensures Stands(entries, at, key, k)
  {
    var e :| 0 <= e < |entries| && entries[e].lineageRoot == key;
    assert at[e] <= k;
  }

  lemma MoreStand(entries: seq<Entry>, at: seq<nat>, entry: Entry, place: nat, key: string, i: nat)
    requires |at| == |entries| && Stands(entries, at, key, i)
    ensures Stands(entries + [entry], at + [place], key, i)
  {
    var e :| 0 <= e < |entries| && e < |at| && entries[e].lineageRoot == key && at[e] <= i;
    assert (entries + [entry])[e] == entries[e] && (at + [place])[e] == at[e];
  }

  lemma NewStands(entries: seq<Entry>, at: seq<nat>, entry: Entry, place: nat)
    requires |at| == |entries|
    ensures Stands(entries + [entry], at + [place], entry.lineageRoot, place)
  {
    assert (entries + [entry])[|entries|] == entry && (at + [place])[|entries|] == place;
  }

  lemma AddedEntry(hits: seq<Hit>, roots: seq<string>, k: nat, currentRoot: string, entries: seq<Entry>, at: seq<nat>)
    requires k < |hits| == |roots| && MadeFrom(hits, roots, k, currentRoot, entries, at)
    requires Complete(hits, roots, k, currentRoot, entries, at)
    requires Eligible(hits[k], roots[k], currentRoot) && LineageKey(hits[k], roots[k]) !in Keys(entries)
    ensures var entry := Entry(hits[k], LineageKey(hits[k], roots[k]));
            && MadeFrom(hits, roots, k + 1, currentRoot, entries + [entry], at + [k])
            && Complete(hits, roots, k + 1, currentRoot, entries + [entry], at + [k])
            && Keys(entries + [entry]) == Keys(entries) + {entry.lineageRoot}
  {
    var entry := Entry(hits[k], LineageKey(hits[k], roots[k]));
    forall i | 0 <= i < k + 1 && Eligible(hits[i], roots[i], currentRoot)
      ensures Stands(entries + [entry], at + [k], LineageKey(hits[i], roots[i]), i)
    {
      if i == k {
        NewStands(entries, at, entry, k);
      } else {
        MoreStand(entries, at, entry, k, LineageKey(hits[i], roots[i]), i);
      }
    }
    forall e | 0 <= e < |entries| ensures entries[e].lineageRoot != entry.lineageRoot {
      assert entries[e].lineageRoot in Keys(entries);
    }
    KeysOneMore(entries, entry);
  }

  lemma KeysOneMore(entries: seq<Entry>, entry: Entry)
    ensures Keys(entries + [entry]) == Keys(entries) + {entry.lineageRoot}
  {
    assert forall e :: e in entries + [entry] <==> e in entries || e == entry;
  }

  lemma SkippedHit(hits: seq<Hit>, roots: seq<string>, k: nat, currentRoot: string, entries: seq<Entry>, at: seq<nat>)
    requires k < |hits| == |roots| && MadeFrom(hits, roots, k, currentRoot, entries, at)
    requires Complete(hits, roots, k, currentRoot, entries, at)
    requires !Eligible(hits[k], roots[k], currentRoot) || LineageKey(hits[k], roots[k]) in Keys(entries)
    ensures MadeFrom(hits, roots, k + 1, currentRoot, entries, at)
    ensures Complete(hits, roots, k + 1, currentRoot, entries, at)
  {
    if LineageKey(hits[k], roots[k]) in Keys(entries) {
      SeenHitStands(hits, roots, k, currentRoot, entries, at, LineageKey(hits[k], roots[k]));
    }
  }

  /** Walks the hits until `limit` lineages are found. */
  method DiscoverBesides(t: Sessions, hits: seq<Hit>, limit: nat, currentRoot: string)
    returns (entries: seq<Entry>, ghost at: seq<nat>, ghost upTo: nat)
    ensures upTo <= |hits|
    ensures MadeFrom(hits, RootsOf(t, hits), upTo, currentRoot, entries, at)
    ensures Complete(hits, RootsOf(t, hits), upTo, currentRoot, entries, at)
    ensures upTo == |hits| || |entries| == (if limit == 0 then 1 else limit)
    ensures |entries| <= if limit == 0 then 1 else limit
  {
    entries, at, upTo := [], [], 0;
    ghost var roots := RootsOf(t, hits);
    var seen: set<string> := {};
    for k := 0 to |hits|
      invariant upTo == k && MadeFrom(hits, roots, k, currentRoot, entries, at)
      invariant Complete(hits, roots, k, currentRoot, entries, at)
      invariant seen == Keys(entries)
      invariant |entries| < if limit == 0 then 1 else limit
    {
      upTo := k + 1;
      var root := ResolveSessionLineageRoot(t, hits[k].sessionId);
      var key := LineageKey(hits[k], root);
      if (currentRoot != "" && root == currentRoot) || key in seen || !hits[k].hasMessages {
        SkippedHit(hits, roots, k, currentRoot, entries, at);
        continue;
      }
      AddedEntry(hits, roots, k, currentRoot, entries, at);
      entries, at := entries + [Entry(hits[k], key)], at + [k];
      seen := seen + {key};
      if |entries| >= limit {
        return;
      }
    }
  }

  /** One entry per lineage other than the current session's. */
  method Discover(t: Sessions, hits: seq<Hit>, limit: nat, currentSession: string)
    returns (entries: seq<Entry>, ghost at: seq<nat>, ghost upTo: nat)
    ensures upTo <= |hits|
    ensures MadeFrom(hits, RootsOf(t, hits), upTo, Root(t, currentSession), entries, at)
    ensures Complete(hits, RootsOf(t, hits), upTo, Root(t, currentSession), entries, at)
    ensures upTo == |hits| || |entries| == (if limit == 0 then 1 else limit)
    ensures |entries| <= if limit == 0 then 1 else limit
  {
    NoAncestors(t);
    var currentRoot := "";
    if currentSession != "" {
      currentRoot := ResolveSessionLineageRoot(t, currentSession);
    }
    entries, at, upTo := DiscoverBesides(t, hits, limit, currentRoot);
  }

  /** What is discovered among the hits looked at: only hits that show messages of other
      lineages than the current one, and of every such lineage an entry for its first hit. */
  lemma DiscoveredMeans(hits: seq<Hit>, roots: seq<string>, upTo: nat, currentRoot: string, entries: seq<Entry>,
                        at: seq<nat>)
    requires upTo <= |hits| == |roots| && MadeFrom(hits, roots, upTo, currentRoot, entries, at)
    requires Complete(hits, roots, upTo, currentRoot, entries, at)
    ensures forall e :: 0 <= e < |entries| ==>
              && entries[e].hit == hits[at[e]] && entries[e].hit.hasMessages
              && (currentRoot != "" ==> roots[at[e]] != currentRoot)
              && (roots[at[e]] != "" ==> entries[e].lineageRoot == roots[at[e]])
              && (roots[at[e]] == "" ==> entries[e].lineageRoot == entries[e].hit.sessionId)
    ensures forall i :: 0 <= i < upTo && hits[i].hasMessages && roots[i] != "" && roots[i] != currentRoot ==>
              exists e :: 0 <= e < |entries| && entries[e].lineageRoot == roots[i] && at[e] <= i
  {
    forall i | 0 <= i < upTo && hits[i].hasMessages && roots[i] != "" && roots[i] != currentRoot
      ensures exists e :: 0 <= e < |entries| && entries[e].lineageRoot == roots[i] && at[e] <= i
    {
      assert Stands(entries, at, LineageKey(hits[i], roots[i]), i);
    }
  }

  /** Discovered lineages are pairwise different and none is the current session's, on
      every table. */
  lemma DiscoveredApart(t: Sessions, hits: seq<Hit>, upTo: nat, current: string,
                        entries: seq<Entry>, at: seq<nat>, d: nat, e: nat)
    requires upTo <= |hits| && MadeFrom(hits, RootsOf(t, hits), upTo, Root(t, current), entries, at)
    requires d < |entries| && e < |entries| && entries[d].hit.sessionId != "" && entries[e].hit.sessionId != ""
    ensures d != e ==> Root(t, entries[d].hit.sessionId) != Root(t, entries[e].hit.sessionId)
    ensures current != "" ==> Root(t, entries[d].hit.sessionId) != Root(t, current)
  {
    RootOfSession(t, entries[d].hit.sessionId);
    RootOfSession(t, entries[e].hit.sessionId);
    RootOfSession(t, current);
  }

  lemma RootOfSession(t: Sessions, s: string)
    ensures s != "" ==> Root(t, s) != ""
  {
    if s != "" {
      if k: nat :| EndsAt(t, s, k) {
        RootAtEnd(t, s, k);
      } else if k: nat :| CyclesAt(t, s, k) {
        RootAtCycle(t, s, k);
      }
    }
  }
}
