/** How the capability selector settles on a capability: the permission filter, the two
    replacement passes, and the preference score that ranks the replacements. */
module CapabilityChoice {
  import opened Basics
  import opened TextOrder

  datatype Kind = Tool | Action | Subgraph

  function KindRank(k: Kind): nat {
    match k case Tool => 0 case Action => 1 case Subgraph => 2
  }

  /** A catalog item; its term sets are lower-cased, its granularity is ranked. */
  datatype Item = Item(
    kind: Kind,
    key: string,
    covers: set<string>,
    taskTags: set<string>,
    produces: set<string>,
    granularityRank: nat,
    permissionTier: string,
    useCount: nat,
    successCount: nat,
    recentFailures: nat)

  const FINAL_RESULT_OUTPUTS := {"final_response", "public_response", "answer", "response"}
  const RECENT_FAILURE_FALLBACK_THRESHOLD := 2

  /** Rounded to four decimal places, a tie to the even digit. */
  function Rounded(x: real): real {
    var scaled := x * 10000.0;
    var digits := scaled.Floor;
    var rest := scaled - digits as real;
    (if rest > 0.5 || (rest == 0.5 && digits % 2 == 1) then digits + 1 else digits) as real / 10000.0
  }

  /** The share of successful uses before rounding. */
  function Share(item: Item): real {
    if item.useCount == 0 then 0.0 else item.successCount as real / item.useCount as real
  }

  /** The rounded share of successful uses, if there was any use. */
  function SuccessRate(item: Item): real {
    if item.useCount == 0 then 0.0 else Rounded(Share(item))
  }

  function TierPriority(tier: string): nat {
    if tier == "external" then 1 else if tier == "guarded" then 2 else if tier == "none" then 3 else 0
  }

  // ---------- ranking ----------

  /** The numbers of an item's preference score, most important first. */
  function Score(item: Item): seq<int> {
    [KindRank(item.kind) as int,
     item.granularityRank,
     if item.produces * FINAL_RESULT_OUTPUTS != {} then 1 else 0,
     (SuccessRate(item) * 1000.0).Floor,
     0 - item.recentFailures,
     TierPriority(item.permissionTier),
     |item.produces|]
  }

  /** Tuple order. */
  predicate LessNumbers(a: seq<int>, b: seq<int>)
    requires |a| == |b|
  {
    a != [] && (a[0] < b[0] || (a[0] == b[0] && LessNumbers(a[1..], b[1..])))
  }

  /** `b` has the higher score: the numbers decide, then the key. */
  predicate Below(a: Item, b: Item) {
    LessNumbers(Score(a), Score(b)) || (Score(a) == Score(b) && Less(a.key, b.key))
  }

  lemma {:induction false} NumbersAreTotal(a: seq<int>, b: seq<int>)
    requires |a| == |b|
    ensures LessNumbers(a, b) || a == b || LessNumbers(b, a)
  {
    if a != [] && a[0] == b[0] {
      NumbersAreTotal(a[1..], b[1..]);
      assert a == [a[0]] + a[1..] && b == [b[0]] + b[1..];
    }
  }

  lemma {:induction false} NumbersAreTransitive(a: seq<int>, b: seq<int>, c: seq<int>)
    requires |a| == |b| == |c| && LessNumbers(a, b) && LessNumbers(b, c)
    ensures LessNumbers(a, c)
  {
    if a[0] == b[0] && b[0] == c[0] {
      NumbersAreTransitive(a[1..], b[1..], c[1..]);
    }
  }

  lemma {:induction false} NumbersAreStrict(a: seq<int>, b: seq<int>)
    requires |a| == |b| && LessNumbers(a, b)
    ensures a != b && !LessNumbers(b, a)
  {
    if a[0] == b[0] {
      NumbersAreStrict(a[1..], b[1..]);
    }
  }

  predicate SameIdentity(a: Item, b: Item) {
    a.kind == b.kind && a.key == b.key
  }

  // ---------- what ranks higher ----------

  /** Subgraphs stand above actions and tools, actions above tools. */
  predicate HigherKind(a: Kind, b: Kind) {
    (a == Subgraph && b != Subgraph) || (a == Action && b == Tool)
  }

  /** Tiers by how little they ask for: none, guarded, external, then any other. */
  predicate SaferTier(a: string, b: string) {
    || (a == "none" && b != "none")
    || (a == "guarded" && b != "none" && b != "guarded")
    || (a == "external" && b != "none" && b != "guarded" && b != "external")
  }

  predicate GivesFinalResult(item: Item) {
    || "final_response" in item.produces || "public_response" in item.produces
    || "answer" in item.produces || "response" in item.produces
  }

  /** The success rate in thousandths, the rest cut off. */
  function Thousandths(item: Item): int {
    (SuccessRate(item) * 1000.0).Floor
  }

  /** `a` ranks above `b`: the first of these that differ decides. A higher kind; a higher
      granularity; giving a final result; a higher success rate; fewer recent failures; a
      safer tier; more outputs; the later key. */
  predicate Outranks(a: Item, b: Item) {
    if a.kind != b.kind then HigherKind(a.kind, b.kind)
    else if a.granularityRank != b.granularityRank then a.granularityRank > b.granularityRank
    else if GivesFinalResult(a) != GivesFinalResult(b) then GivesFinalResult(a)
    else if Thousandths(a) != Thousandths(b) then Thousandths(a) > Thousandths(b)
    else OutranksInUse(a, b)
  }

  predicate OutranksInUse(a: Item, b: Item) {
    if a.recentFailures != b.recentFailures then a.recentFailures < b.recentFailures
    else if SaferTier(a.permissionTier, b.permissionTier) then true
    else if SaferTier(b.permissionTier, a.permissionTier) then false
    else if |a.produces| != |b.produces| then |a.produces| > |b.produces|
    else Less(b.key, a.key)
  }

  /** `i` is the first place where the numbers differ. */
  predicate DifferFirstAt(a: seq<int>, b: seq<int>, i: nat)
    requires |a| == |b|
  {
    i < |a| && a[i] != b[i] && forall j :: 0 <= j < i ==> a[j] == b[j]
  }

  /** The first difference decides. */
  lemma {:induction false} FirstDifferenceDecides(a: seq<int>, b: seq<int>, i: nat)
    requires |a| == |b| && DifferFirstAt(a, b, i)
    ensures LessNumbers(a, b) <==> a[i] < b[i]
    ensures a != b
  {
    if i > 0 {
      assert forall j :: 0 <= j < |a| - 1 ==> a[1..][j] == a[j + 1] && b[1..][j] == b[j + 1];
      FirstDifferenceDecides(a[1..], b[1..], i - 1);
    }
  }

  lemma SafeTiers(a: string, b: string)
    ensures TierPriority(a) > TierPriority(b) <==> SaferTier(a, b)
    ensures TierPriority(a) == TierPriority(b) <==> !SaferTier(a, b) && !SaferTier(b, a)
  {
  }

  lemma FinalResults(item: Item)
    ensures GivesFinalResult(item) <==> item.produces * FINAL_RESULT_OUTPUTS != {}
  {
    if GivesFinalResult(item) {
      var o :| o in {"final_response", "public_response", "answer", "response"} && o in item.produces;
      assert o in item.produces * FINAL_RESULT_OUTPUTS;
    }
  }

  /** The numbers of the score, one by one. */
  lemma ScoreNumbers(a: Item, b: Item)
    ensures var x, y := Score(a), Score(b);
            && |x| == |y| == 7
            && (x[0] < y[0] <==> HigherKind(b.kind, a.kind)) && (x[0] == y[0] <==> a.kind == b.kind)
            && x[1] == a.granularityRank && y[1] == b.granularityRank
            && (x[2] < y[2] <==> GivesFinalResult(b) && !GivesFinalResult(a))
            && (x[2] == y[2] <==> GivesFinalResult(a) == GivesFinalResult(b))
            && x[3] == Thousandths(a) && y[3] == Thousandths(b)
            && (x[4] < y[4] <==> b.recentFailures < a.recentFailures)
            && (x[4] == y[4] <==> b.recentFailures == a.recentFailures)
            && (x[5] < y[5] <==> SaferTier(b.permissionTier, a.permissionTier))
            && (x[5] == y[5] <==> !SaferTier(a.permissionTier, b.permissionTier)
                                  && !SaferTier(b.permissionTier, a.permissionTier))
            && x[6] == |a.produces| && y[6] == |b.produces|
  {
    FinalResults(a);
    FinalResults(b);
    SafeTiers(a.permissionTier, b.permissionTier);
    SafeTiers(b.permissionTier, a.permissionTier);
  }

  lemma {:induction false} FirstDifference(a: seq<int>, b: seq<int>) returns (i: nat)
    requires |a| == |b| && a != b
    ensures DifferFirstAt(a, b, i)
  {
    i := 0;
    if a[0] == b[0] {
      assert a == [a[0]] + a[1..] && b == [b[0]] + b[1..];
      i := FirstDifference(a[1..], b[1..]);
      assert forall j :: 0 <= j < |a| - 1 ==> a[1..][j] == a[j + 1] && b[1..][j] == b[j + 1];
      i := i + 1;
    }
  }

  /** The score ranks exactly by these comparisons. */
  lemma BelowMeansOutranked(a: Item, b: Item)
    ensures Below(a, b) <==> Outranks(b, a)
  {
    ScoreNumbers(a, b);
    if Score(a) != Score(b) {
      var i := FirstDifference(Score(a), Score(b));
      FirstDifferenceDecides(Score(a), Score(b), i);
      ScoreNumbers(b, a);
    } else if LessNumbers(Score(a), Score(b)) {
      NumbersAreStrict(Score(a), Score(b));
    }
  }

  lemma BelowIsTotal(a: Item, b: Item)
    requires !SameIdentity(a, b)
    ensures Below(a, b) || Below(b, a)
  {
    NumbersAreTotal(Score(a), Score(b));
    LessIsTotal(a.key, b.key);
    if Score(a) == Score(b) {
      assert Score(a)[0] == Score(b)[0];
    }
  }

  lemma BelowIsTransitive(a: Item, b: Item, c: Item)
    requires Below(a, b) && Below(b, c)
    ensures Below(a, c)
  {
    if LessNumbers(Score(a), Score(b)) && LessNumbers(Score(b), Score(c)) {
      NumbersAreTransitive(Score(a), Score(b), Score(c));
    } else if Score(a) == Score(b) && Score(b) == Score(c) {
      LessIsTransitive(a.key, b.key, c.key);
    }
  }

  lemma BelowIsStrict(a: Item, b: Item)
    requires Below(a, b)
    ensures !Below(b, a)
  {
    if LessNumbers(Score(a), Score(b)) {
      NumbersAreStrict(Score(a), Score(b));
    } else {
      LessIsStrict(a.key, b.key);
      if LessNumbers(Score(b), Score(a)) {
        NumbersAreStrict(Score(b), Score(a));
      }
    }
  }

  /** The score has no gaps: what is not above `a` is not above what is above `a`. */
  lemma NotBelowIsTransitive(x: Item, a: Item, b: Item)
    requires !Below(a, x) && Below(a, b)
    ensures Below(x, b)
  {
    if !SameIdentity(x, a) {
      BelowIsTotal(x, a);
      BelowIsTransitive(x, a, b);
    } else {
      NumbersAreTotal(Score(x), Score(a));
      if LessNumbers(Score(x), Score(a)) && LessNumbers(Score(a), Score(b)) {
        NumbersAreTransitive(Score(x), Score(a), Score(b));
      }
    }
  }

  // ---------- replacements ----------

  function Terms(item: Item): set<string> {
    if item.covers != {} then item.covers else item.covers + item.taskTags
  }

  predicate ProducesMoreCompleteResult(item: Item, candidate: Item) {
    && item.produces - candidate.produces != {}
    && (item.granularityRank > candidate.granularityRank
        || (item.produces * FINAL_RESULT_OUTPUTS) - candidate.produces != {})
  }

  /** A higher-level item that does all the candidate does, and more. */
  predicate IsUpgrade(candidate: Item, item: Item) {
    && Terms(candidate) != {}
    && KindRank(item.kind) > KindRank(candidate.kind)
    && !SameIdentity(item, candidate)
    && Terms(item) != {}
    && (if candidate.covers != {} then candidate.covers <= item.covers else Terms(candidate) <= Terms(item))
    && ProducesMoreCompleteResult(item, candidate)
  }

  /** A healthier item for a candidate that failed lately. */
  predicate IsFallback(candidate: Item, item: Item) {
    && candidate.recentFailures >= RECENT_FAILURE_FALLBACK_THRESHOLD
    && !SameIdentity(item, candidate)
    && Terms(candidate) * Terms(item) != {}
    && item.recentFailures < candidate.recentFailures
    && SuccessRate(item) >= SuccessRate(candidate)
  }

  /** The terms an item stands for: what it covers, or its task tags if it names none. */
  predicate StandsFor(item: Item, term: string) {
    if item.covers == {} then term in item.taskTags else term in item.covers
  }

  predicate AddsOutput(item: Item, candidate: Item, output: string) {
    output in item.produces && output !in candidate.produces
  }

  lemma TermsByTerm(a: Item, b: Item)
    ensures forall t :: t in Terms(a) <==> StandsFor(a, t)
    ensures Terms(a) != {} <==> exists t :: StandsFor(a, t)
    ensures Terms(a) * Terms(b) != {} <==> exists t :: StandsFor(a, t) && StandsFor(b, t)
    ensures Terms(a) <= Terms(b) <==> forall t :: StandsFor(a, t) ==> StandsFor(b, t)
    ensures a.covers != {} ==> (a.covers <= b.covers <==> forall t :: StandsFor(a, t) ==> t in b.covers)
  {
    if t :| StandsFor(a, t) && StandsFor(b, t) {
      assert t in Terms(a) * Terms(b);
    }
    if Terms(a) * Terms(b) != {} {
      var t :| t in Terms(a) * Terms(b);
      assert StandsFor(a, t) && StandsFor(b, t);
    }
    if Terms(a) != {} {
      var t :| t in Terms(a);
      assert StandsFor(a, t);
    }
  }

  lemma OutputsByOutput(item: Item, candidate: Item)
    ensures item.produces - candidate.produces != {} <==> exists o :: AddsOutput(item, candidate, o)
    ensures (item.produces * FINAL_RESULT_OUTPUTS) - candidate.produces != {} <==>
            exists o :: AddsOutput(item, candidate, o)
                        && o in {"final_response", "public_response", "answer", "response"}
  {
    if o :| AddsOutput(item, candidate, o) {
      assert o in item.produces - candidate.produces;
    }
    if o :| AddsOutput(item, candidate, o) && o in {"final_response", "public_response", "answer", "response"} {
      assert o in (item.produces * FINAL_RESULT_OUTPUTS) - candidate.produces;
    }
    if item.produces - candidate.produces != {} {
      var o :| o in item.produces - candidate.produces;
      assert AddsOutput(item, candidate, o);
    }
    if (item.produces * FINAL_RESULT_OUTPUTS) - candidate.produces != {} {
      var o :| o in (item.produces * FINAL_RESULT_OUTPUTS) - candidate.produces;
      assert AddsOutput(item, candidate, o);
    }
  }

  /** When an item is an upgrade, term by term and output by output. */
  lemma UpgradeMeans(candidate: Item, item: Item)
    ensures IsUpgrade(candidate, item) <==>
      && HigherKind(item.kind, candidate.kind)
      && (exists t :: StandsFor(candidate, t)) && (exists t :: StandsFor(item, t))
      && (forall t :: StandsFor(candidate, t) ==>
            if candidate.covers == {} then StandsFor(item, t) else t in item.covers)
      && (exists o :: AddsOutput(item, candidate, o))
      && (item.granularityRank > candidate.granularityRank
          || exists o :: AddsOutput(item, candidate, o)
                         && o in {"final_response", "public_response", "answer", "response"})
  {
    TermsByTerm(candidate, item);
    TermsByTerm(item, candidate);
    OutputsByOutput(item, candidate);
  }

  /** When an item is a fallback: after two recent failures of the candidate, for something
      they both stand for. */
  lemma FallbackMeans(candidate: Item, item: Item)
    ensures IsFallback(candidate, item) <==>
      && candidate.recentFailures >= 2 && (item.kind != candidate.kind || item.key != candidate.key)
      && (exists t :: StandsFor(candidate, t) && StandsFor(item, t))
      && item.recentFailures < candidate.recentFailures && SuccessRate(item) >= SuccessRate(candidate)
  {
    TermsByTerm(candidate, item);
  }

  datatype Pass = HigherLevel | RecentFailures

  predicate Replaces(pass: Pass, candidate: Item, item: Item) {
    if pass.HigherLevel? then IsUpgrade(candidate, item) else IsFallback(candidate, item)
  }

  /** The replacements for the candidate, in catalog order. */
  function Eligible(pass: Pass, candidate: Item, catalog: seq<Item>): seq<Item> {
    if catalog == [] then []
    else
      var last := catalog[|catalog| - 1];
      Eligible(pass, candidate, catalog[..|catalog| - 1]) + (if Replaces(pass, candidate, last) then [last] else [])
  }

  lemma EligibleOneMore(pass: Pass, candidate: Item, catalog: seq<Item>, k: nat)
    requires k < |catalog|
    ensures Eligible(pass, candidate, catalog[..k + 1]) ==
            Eligible(pass, candidate, catalog[..k])
            + (if Replaces(pass, candidate, catalog[k]) then [catalog[k]] else [])
  {
    assert catalog[..k + 1][..k] == catalog[..k];
  }

  lemma {:induction false} EligibleMembers(pass: Pass, candidate: Item, catalog: seq<Item>, item: Item)
    ensures item in Eligible(pass, candidate, catalog) <==> item in catalog && Replaces(pass, candidate, item)
  {
    if catalog != [] {
      var init := catalog[..|catalog| - 1];
      EligibleMembers(pass, candidate, init, item);
      assert catalog == init + [catalog[|catalog| - 1]];
    }
  }

  /** Position `k` holds the first of the items no other one outranks. */
  ghost predicate IsFirstMax(items: seq<Item>, k: nat) {
    && k < |items|
    && (forall i :: 0 <= i < k ==> Below(items[i], items[k]))
    && (forall i :: k < i < |items| ==> !Below(items[k], items[i]))
  }

  /** `best` is the first replacement with the highest score, or there is none. */
  ghost predicate IsBest(pass: Pass, candidate: Item, catalog: seq<Item>, best: Option<Item>) {
    var eligible := Eligible(pass, candidate, catalog);
    if eligible == [] then best == None
    else exists k: nat :: IsFirstMax(eligible, k) && best == Some(eligible[k])
  }

  /** `best` replaces the candidate and ranks above every other item that does; or no item
      replaces it. */
  ghost predicate IsHighestRanked(pass: Pass, candidate: Item, catalog: seq<Item>, best: Option<Item>) {
    match best
    case None => forall item :: item in catalog ==> !Replaces(pass, candidate, item)
    case Some(chosen) =>
      && chosen in catalog && Replaces(pass, candidate, chosen)
      && forall item :: item in catalog && Replaces(pass, candidate, item) ==>
           !Outranks(item, chosen) && (SameIdentity(item, chosen) || Outranks(chosen, item))
  }

  lemma BestIsHighestRanked(pass: Pass, candidate: Item, catalog: seq<Item>, best: Option<Item>)
    requires IsBest(pass, candidate, catalog, best)
    ensures IsHighestRanked(pass, candidate, catalog, best)
  {
    if best.Some? {
      BestReplaces(pass, candidate, catalog, best);
    }
    forall item | item in catalog && Replaces(pass, candidate, item)
      ensures best.Some?
      ensures !Outranks(item, best.value) && (SameIdentity(item, best.value) || Outranks(best.value, item))
    {
      BestIsAboveAll(pass, candidate, catalog, best, item);
      BelowMeansOutranked(best.value, item);
      BelowMeansOutranked(item, best.value);
      if !SameIdentity(item, best.value) {
        BelowIsTotal(item, best.value);
      }
    }
  }

  lemma BestIsAboveAll(pass: Pass, candidate: Item, catalog: seq<Item>, best: Option<Item>, item: Item)
    requires IsBest(pass, candidate, catalog, best) && item in catalog && Replaces(pass, candidate, item)
    ensures best.Some? && best.value in catalog && Replaces(pass, candidate, best.value) && !Below(best.value, item)
  {
    EligibleMembers(pass, candidate, catalog, item);
    var eligible := Eligible(pass, candidate, catalog);
    var k: nat :| IsFirstMax(eligible, k) && best == Some(eligible[k]);
    EligibleMembers(pass, candidate, catalog, eligible[k]);
    var i :| 0 <= i < |eligible| && eligible[i] == item;
    if i < k {
      BelowIsStrict(item, best.value);
    } else if i == k && Below(item, item) {
      BelowIsStrict(item, item);
    }
  }

  lemma BestReplaces(pass: Pass, candidate: Item, catalog: seq<Item>, best: Option<Item>)
    requires IsBest(pass, candidate, catalog, best) && best.Some?
    ensures best.value in catalog && Replaces(pass, candidate, best.value)
  {
    var eligible := Eligible(pass, candidate, catalog);
    var k: nat :| IsFirstMax(eligible, k) && best == Some(eligible[k]);
    EligibleMembers(pass, candidate, catalog, eligible[k]);
  }

  /** Python's `max`: the first of the highest. */
  method MaxByScore(items: seq<Item>) returns (best: Item)
    requires items != []
    ensures exists k: nat :: IsFirstMax(items, k) && best == items[k]
  {
    var at := 0;
    for k := 1 to |items|
      invariant at < k
      invariant forall i :: 0 <= i < at ==> Below(items[i], items[at])
      invariant forall i :: at < i < k ==> !Below(items[at], items[i])
    {
      if Below(items[at], items[k]) {
        forall i | 0 <= i < k ensures Below(items[i], items[k]) {
          if i < at {
            BelowIsTransitive(items[i], items[at], items[k]);
          } else if i > at {
            NotBelowIsTransitive(items[i], items[at], items[k]);
          }
        }
        at := k;
      }
    }
    assert IsFirstMax(items, at);
    best := items[at];
  }

  method PreferHigherLevelCapability(candidate: Item, catalog: seq<Item>) returns (best: Option<Item>)
    ensures IsBest(HigherLevel, candidate, catalog, best)
    ensures IsHighestRanked(HigherLevel, candidate, catalog, best)
  {
    var eligible: seq<Item> := [];
    if Terms(candidate) == {} {
      NoTermsNoUpgrades(candidate, catalog);
      BestIsHighestRanked(HigherLevel, candidate, catalog, None);
      return None;
    }
    for k := 0 to |catalog|
      invariant eligible == Eligible(HigherLevel, candidate, catalog[..k])
    {
      var item := catalog[k];
      EligibleOneMore(HigherLevel, candidate, catalog, k);
      if KindRank(item.kind) <= KindRank(candidate.kind) || SameIdentity(item, candidate) || Terms(item) == {} {
        continue;
      }
      var required := if candidate.covers != {} then candidate.covers else Terms(candidate);
      var offered := if candidate.covers != {} then item.covers else Terms(item);
      if !(required <= offered) || !ProducesMoreCompleteResult(item, candidate) {
        continue;
      }
      eligible := eligible + [item];
    }
    assert catalog[..|catalog|] == catalog;
    if eligible == [] {
      best := None;
    } else {
      var chosen := MaxByScore(eligible);
      best := Some(chosen);
    }
    BestIsHighestRanked(HigherLevel, candidate, catalog, best);
  }

  lemma NoTermsNoUpgrades(candidate: Item, catalog: seq<Item>)
    requires Terms(candidate) == {}
    ensures Eligible(HigherLevel, candidate, catalog) == []
  {
    if Eligible(HigherLevel, candidate, catalog) != [] {
      EligibleMembers(HigherLevel, candidate, catalog, Eligible(HigherLevel, candidate, catalog)[0]);
    }
  }

  lemma HealthyNeedsNoFallback(candidate: Item, catalog: seq<Item>)
    requires candidate.recentFailures < RECENT_FAILURE_FALLBACK_THRESHOLD || Terms(candidate) == {}
    ensures Eligible(RecentFailures, candidate, catalog) == []
  {
    if Eligible(RecentFailures, candidate, catalog) != [] {
      EligibleMembers(RecentFailures, candidate, catalog, Eligible(RecentFailures, candidate, catalog)[0]);
    }
  }

  method PreferHealthierFallbackCapability(candidate: Item, catalog: seq<Item>) returns (best: Option<Item>)
    ensures IsBest(RecentFailures, candidate, catalog, best)
    ensures IsHighestRanked(RecentFailures, candidate, catalog, best)
  {
    var eligible: seq<Item> := [];
    if candidate.recentFailures < RECENT_FAILURE_FALLBACK_THRESHOLD || Terms(candidate) == {} {
      HealthyNeedsNoFallback(candidate, catalog);
      BestIsHighestRanked(RecentFailures, candidate, catalog, None);
      return None;
    }
    for k := 0 to |catalog|
      invariant eligible == Eligible(RecentFailures, candidate, catalog[..k])
    {
      var item := catalog[k];
      EligibleOneMore(RecentFailures, candidate, catalog, k);
      if SameIdentity(item, candidate) || Terms(candidate) * Terms(item) == {} {
        continue;
      }
      if item.recentFailures >= candidate.recentFailures || SuccessRate(item) < SuccessRate(candidate) {
        continue;
      }
      eligible := eligible + [item];
    }
    assert catalog[..|catalog|] == catalog;
    if eligible == [] {
      best := None;
    } else {
      var chosen := MaxByScore(eligible);
      best := Some(chosen);
    }
    BestIsHighestRanked(RecentFailures, candidate, catalog, best);
  }

  /** What is chosen for a candidate: its best upgrade, else its best fallback, else the
      candidate. */
  ghost predicate IsPreferred(candidate: Item, catalog: seq<Item>, chosen: Item) {
    exists upgrade, fallback :: ArePassResults(candidate, catalog, upgrade, fallback, chosen)
  }

  /** The results of the two passes, and what they make of the candidate. */
  ghost predicate ArePassResults(candidate: Item, catalog: seq<Item>, upgrade: Option<Item>, fallback: Option<Item>,
                                 chosen: Item)
  {
    && IsBest(HigherLevel, candidate, catalog, upgrade) && IsBest(RecentFailures, candidate, catalog, fallback)
    && chosen == if upgrade.Some? then upgrade.value else if fallback.Some? then fallback.value else candidate
  }

  method SelectPreferredCapability(candidate: Item, catalog: seq<Item>) returns (chosen: Item)
    ensures IsPreferred(candidate, catalog, chosen)
  {
    var upgrade := PreferHigherLevelCapability(candidate, catalog);
    var fallback := PreferHealthierFallbackCapability(candidate, catalog);
    chosen := if upgrade.Some? then upgrade.value else if fallback.Some? then fallback.value else candidate;
    assert ArePassResults(candidate, catalog, upgrade, fallback, chosen);
  }

  // ---------- the permission policy ----------

  /** Allowed tiers, all when empty, and blocked tiers. */
  datatype Policy = Policy(allowedTiers: set<string>, blockedTiers: set<string>)

  predicate Allows(policy: Option<Policy>, item: Item) {
    policy.None?
    || ((policy.value.allowedTiers == {} || item.permissionTier in policy.value.allowedTiers)
        && item.permissionTier !in policy.value.blockedTiers)
  }

  function Permitted(catalog: seq<Item>, policy: Option<Policy>): seq<Item> {
    if catalog == [] then []
    else
      Permitted(catalog[..|catalog| - 1], policy)
      + (if Allows(policy, catalog[|catalog| - 1]) then [catalog[|catalog| - 1]] else [])
  }

  lemma {:induction false} PermittedMembers(catalog: seq<Item>, policy: Option<Policy>, item: Item)
    ensures item in Permitted(catalog, policy) <==> item in catalog && Allows(policy, item)
  {
    if catalog != [] {
      PermittedMembers(catalog[..|catalog| - 1], policy, item);
      assert catalog == catalog[..|catalog| - 1] + [catalog[|catalog| - 1]];
    }
  }

  // ---------- the whole choice ----------

  datatype KindWord = NoKind | Known(kind: Kind) | Unknown

  /** What the model asked for. */
  datatype Request = Request(needsCapability: Option<bool>, kind: KindWord, key: string)

  datatype Refusal = NotNeeded | UnsupportedKind | MissingKey | NotAllowed | NotDiscoverable

  datatype Choice = NoCapability(why: Refusal) | Capability(item: Item)

  /** Position `k` is the last with this kind and key, the one an index by both keeps. */
  ghost predicate IsIndexed(catalog: seq<Item>, kind: Kind, key: string, k: nat) {
    && k < |catalog| && catalog[k].kind == kind && catalog[k].key == key
    && forall i :: k < i < |catalog| ==> catalog[i].kind != kind || catalog[i].key != key
  }

  ghost predicate IsLookup(catalog: seq<Item>, kind: Kind, key: string, found: Option<Item>) {
    match found
    case None => forall item :: item in catalog ==> item.kind != kind || item.key != key
    case Some(item) => exists k: nat :: IsIndexed(catalog, kind, key, k) && item == catalog[k]
  }

  /** Looks an item up by kind and key. */
  method Lookup(catalog: seq<Item>, kind: Kind, key: string) returns (found: Option<Item>)
    ensures IsLookup(catalog, kind, key, found)
  {
    found := None;
    ghost var at := 0;
    for k := 0 to |catalog|
      invariant found.None? ==> forall i :: 0 <= i < k ==> catalog[i].kind != kind || catalog[i].key != key
      invariant found.Some? ==>
        at < k && found.value == catalog[at] && catalog[at].kind == kind && catalog[at].key == key
      invariant found.Some? ==> forall i :: at < i < k ==> catalog[i].kind != kind || catalog[i].key != key
    {
      if catalog[k].kind == kind && catalog[k].key == key {
        found := Some(catalog[k]);
        at := k;
      }
    }
    assert found.Some? ==> IsIndexed(catalog, kind, key, at);
  }

  /** What a request is answered with. */
  ghost predicate IsChoice(request: Request, catalog: seq<Item>, policy: Option<Policy>, choice: Choice) {
    if request.needsCapability == Some(false) || request.kind.NoKind? then choice == NoCapability(NotNeeded)
    else if request.kind.Unknown? then choice == NoCapability(UnsupportedKind)
    else if request.key == "" then choice == NoCapability(MissingKey)
    else
      exists permitted, any ::
        && IsLookup(Permitted(catalog, policy), request.kind.kind, request.key, permitted)
        && IsLookup(catalog, request.kind.kind, request.key, any)
        && Answers(catalog, policy, permitted, any, choice)
  }

  /** The answer once the item has been looked up, among the permitted ones and among all. */
  ghost predicate Answers(catalog: seq<Item>, policy: Option<Policy>, permitted: Option<Item>, any: Option<Item>,
                          choice: Choice)
  {
    if permitted.Some? then choice.Capability? && IsPreferred(permitted.value, Permitted(catalog, policy), choice.item)
    else choice == NoCapability(if any.Some? && !Allows(policy, any.value) then NotAllowed else NotDiscoverable)
  }

  method NormalizeSelectedCapability(request: Request, catalog: seq<Item>, policy: Option<Policy>)
    returns (choice: Choice)
    ensures IsChoice(request, catalog, policy, choice)
  {
    if request.needsCapability == Some(false) || request.kind.NoKind? {
      return NoCapability(NotNeeded);
    }
    if request.kind.Unknown? {
      return NoCapability(UnsupportedKind);
    }
    if request.key == "" {
      return NoCapability(MissingKey);
    }
    var permitted := Permitted(catalog, policy);
    var rejected := Lookup(catalog, request.kind.kind, request.key);
    var candidate := Lookup(permitted, request.kind.kind, request.key);
    if candidate.None? {
      choice := NoCapability(if rejected.Some? && !Allows(policy, rejected.value) then NotAllowed else NotDiscoverable);
    } else {
      var chosen := SelectPreferredCapability(candidate.value, permitted);
      choice := Capability(chosen);
    }
    assert Answers(catalog, policy, candidate, rejected, choice);
  }

  // ---------- what the choice guarantees ----------

  /** No two items of one kind share a key. */
  ghost predicate DistinctItems(catalog: seq<Item>) {
    forall i, j :: 0 <= i < j < |catalog| ==> !SameIdentity(catalog[i], catalog[j])
  }

  lemma SameIdentitySameItem(catalog: seq<Item>, a: Item, b: Item)
    requires DistinctItems(catalog) && a in catalog && b in catalog && SameIdentity(a, b)
    ensures a == b
  {
    var i :| 0 <= i < |catalog| && catalog[i] == a;
    var j :| 0 <= j < |catalog| && catalog[j] == b;
  }

  lemma BestIsUnique(pass: Pass, candidate: Item, a: seq<Item>, b: seq<Item>, x: Option<Item>, y: Option<Item>)
    requires forall item :: item in a <==> item in b
    requires forall c, d :: c in a && d in a && SameIdentity(c, d) ==> c == d
    requires IsBest(pass, candidate, a, x) && IsBest(pass, candidate, b, y)
    ensures x == y
  {
    if x.Some? {
      BestReplaces(pass, candidate, a, x);
      BestIsAboveAll(pass, candidate, b, y, x.value);
      BestIsAboveAll(pass, candidate, a, x, y.value);
      if x != y {
        BelowIsTotal(x.value, y.value);
      }
    } else if y.Some? {
      BestReplaces(pass, candidate, b, y);
      BestIsAboveAll(pass, candidate, a, x, y.value);
    }
  }

  lemma Replacements(candidate: Item, catalog: seq<Item>, chosen: Item)
    returns (upgrade: Option<Item>, fallback: Option<Item>)
    requires IsPreferred(candidate, catalog, chosen)
    ensures IsBest(HigherLevel, candidate, catalog, upgrade) && IsBest(RecentFailures, candidate, catalog, fallback)
    ensures chosen == if upgrade.Some? then upgrade.value else if fallback.Some? then fallback.value else candidate
  {
    upgrade, fallback :| ArePassResults(candidate, catalog, upgrade, fallback, chosen);
  }

  lemma PreferredIsUnique(candidate: Item, a: seq<Item>, b: seq<Item>, x: Item, y: Item)
    requires forall item :: item in a <==> item in b
    requires forall c, d :: c in a && d in a && SameIdentity(c, d) ==> c == d
    requires IsPreferred(candidate, a, x) && IsPreferred(candidate, b, y)
    ensures x == y
  {
    var upA, backA := Replacements(candidate, a, x);
    var upB, backB := Replacements(candidate, b, y);
    BestIsUnique(HigherLevel, candidate, a, b, upA, upB);
    BestIsUnique(RecentFailures, candidate, a, b, backA, backB);
  }

  lemma LookupIsUnique(a: seq<Item>, b: seq<Item>, kind: Kind, key: string, x: Option<Item>, y: Option<Item>)
    requires forall item :: item in a <==> item in b
    requires forall c, d :: c in a && d in a && SameIdentity(c, d) ==> c == d
    requires IsLookup(a, kind, key, x) && IsLookup(b, kind, key, y)
    ensures x == y
  {
    if x.Some? {
      var k: nat :| IsIndexed(a, kind, key, k) && x.value == a[k];
      assert x.value in b;
    }
    if y.Some? {
      var k: nat :| IsIndexed(b, kind, key, k) && y.value == b[k];
      assert y.value in a;
    }
  }

  /** Listing the same items in another order changes no choice. */
  lemma ChoiceIgnoresOrder(request: Request, a: seq<Item>, b: seq<Item>, policy: Option<Policy>, x: Choice, y: Choice)
    requires DistinctItems(a) && forall item :: item in a <==> item in b
    requires IsChoice(request, a, policy, x) && IsChoice(request, b, policy, y)
    ensures x == y
  {
    if request.needsCapability != Some(false) && request.kind.Known? && request.key != "" {
      var kind, key, pa, pb := request.kind.kind, request.key, Permitted(a, policy), Permitted(b, policy);
      forall item
        ensures item in pa <==> item in a && Allows(policy, item)
        ensures item in pb <==> item in b && Allows(policy, item)
      {
        PermittedMembers(a, policy, item);
        PermittedMembers(b, policy, item);
      }
      forall c, d | c in a && d in a && SameIdentity(c, d) ensures c == d {
        SameIdentitySameItem(a, c, d);
      }
      var foundA, anyA :|
        IsLookup(pa, kind, key, foundA) && IsLookup(a, kind, key, anyA) && Answers(a, policy, foundA, anyA, x);
      var foundB, anyB :|
        IsLookup(pb, kind, key, foundB) && IsLookup(b, kind, key, anyB) && Answers(b, policy, foundB, anyB, y);
      LookupIsUnique(pa, pb, kind, key, foundA, foundB);
      LookupIsUnique(a, b, kind, key, anyA, anyB);
      if foundA.Some? {
        PreferredIsUnique(foundA.value, pa, pb, x.item, y.item);
      }
    }
  }

  /** `c` is what the request names, and is allowed. */
  predicate IsRequested(request: Request, catalog: seq<Item>, policy: Option<Policy>, c: Item) {
    request.kind.Known? && c in catalog && c.kind == request.kind.kind && c.key == request.key && Allows(policy, c)
  }

  lemma RequestedItem(request: Request, catalog: seq<Item>, policy: Option<Policy>, chosen: Item)
    returns (candidate: Item)
    requires IsChoice(request, catalog, policy, Capability(chosen))
    ensures IsRequested(request, catalog, policy, candidate)
    ensures candidate in Permitted(catalog, policy) && IsPreferred(candidate, Permitted(catalog, policy), chosen)
  {
    var kind, key, permitted := request.kind.kind, request.key, Permitted(catalog, policy);
    var found, any :| IsLookup(permitted, kind, key, found) && IsLookup(catalog, kind, key, any)
      && Answers(catalog, policy, found, any, Capability(chosen));
    candidate := found.value;
    var k: nat :| IsIndexed(permitted, kind, key, k) && candidate == permitted[k];
    PermittedMembers(catalog, policy, candidate);
  }

  /** `item` is of a higher kind, offers every term `candidate` stands for, and produces
      something new. */
  predicate DoesMore(item: Item, candidate: Item) {
    && HigherKind(item.kind, candidate.kind)
    && Terms(candidate) <= Terms(item)
    && item.produces - candidate.produces != {}
  }

  /** `item` has failed strictly less often lately and succeeds no less often. */
  predicate IsHealthier(item: Item, candidate: Item) {
    item.recentFailures < candidate.recentFailures && SuccessRate(item) >= SuccessRate(candidate)
  }

  /** Rounding gives a number of four decimal places, the nearest one; of two nearest ones
      the one whose last digit is even. */
  lemma RoundedIsNear(x: real)
    ensures -0.00005 <= Rounded(x) - x <= 0.00005
    ensures exists digits: int ::
              && Rounded(x) == digits as real / 10000.0
              && (Rounded(x) - x in {-0.00005, 0.00005} ==> digits % 2 == 0)
  {
  }

  /** A healthier item's true share of successes is not smaller, up to the rounding. */
  lemma HealthierUpToRounding(item: Item, candidate: Item)
    requires IsHealthier(item, candidate)
    ensures item.recentFailures < candidate.recentFailures && Share(item) >= Share(candidate) - 0.0001
  {
    RoundedIsNear(Share(item));
    RoundedIsNear(Share(candidate));
  }

  /** It can be smaller: 3333 of 10000 passes for 1 of 3. */
  lemma RoundingHidesDifference(item: Item, candidate: Item)
    requires item.useCount == 10000 && item.successCount == 3333
    requires candidate.useCount == 3 && candidate.successCount == 1
    ensures SuccessRate(item) == SuccessRate(candidate) && Share(item) < Share(candidate)
  {
  }

  lemma ReplacementGains(pass: Pass, candidate: Item, catalog: seq<Item>, best: Option<Item>)
    requires IsBest(pass, candidate, catalog, best) && best.Some?
    ensures best.value in catalog
    ensures if pass.HigherLevel? then DoesMore(best.value, candidate) else IsHealthier(best.value, candidate)
  {
    BestReplaces(pass, candidate, catalog, best);
  }

  lemma NoUpgrade(candidate: Item, catalog: seq<Item>, item: Item)
    requires IsBest(HigherLevel, candidate, catalog, None) && item in catalog
    ensures !IsUpgrade(candidate, item)
  {
    if IsUpgrade(candidate, item) {
      BestIsAboveAll(HigherLevel, candidate, catalog, None, item);
    }
  }

  lemma PreferredIsSound(candidate: Item, catalog: seq<Item>, chosen: Item)
    requires IsPreferred(candidate, catalog, chosen) && candidate in catalog
    ensures chosen in catalog
    ensures chosen == candidate || DoesMore(chosen, candidate)
         || (IsHealthier(chosen, candidate) && forall item :: item in catalog ==> !IsUpgrade(candidate, item))
  {
    var up, back := Replacements(candidate, catalog, chosen);
    if up.Some? {
      ReplacementGains(HigherLevel, candidate, catalog, up);
    } else {
      forall item | item in catalog ensures !IsUpgrade(candidate, item) {
        NoUpgrade(candidate, catalog, item);
      }
      if back.Some? {
        ReplacementGains(RecentFailures, candidate, catalog, back);
      }
    }
  }

  /** An item the policy allows and the pass accepts for the candidate. */
  predicate IsOpen(pass: Pass, candidate: Item, catalog: seq<Item>, policy: Option<Policy>, item: Item) {
    item in catalog && Allows(policy, item) && Replaces(pass, candidate, item)
  }

  ghost predicate AnyOpen(pass: Pass, candidate: Item, catalog: seq<Item>, policy: Option<Policy>) {
    exists item :: IsOpen(pass, candidate, catalog, policy, item)
  }

  /** `chosen` is accepted, and ranks above every other item that is. */
  ghost predicate IsBestOpen(pass: Pass, candidate: Item, catalog: seq<Item>, policy: Option<Policy>, chosen: Item) {
    && IsOpen(pass, candidate, catalog, policy, chosen)
    && forall item :: IsOpen(pass, candidate, catalog, policy, item) ==>
         !Outranks(item, chosen) && (SameIdentity(item, chosen) || Outranks(chosen, item))
  }

  lemma BestAmongPermitted(pass: Pass, candidate: Item, catalog: seq<Item>, policy: Option<Policy>, best: Option<Item>)
    requires IsBest(pass, candidate, Permitted(catalog, policy), best)
    ensures best.Some? <==> AnyOpen(pass, candidate, catalog, policy)
    ensures best.Some? ==> IsBestOpen(pass, candidate, catalog, policy, best.value)
  {
    var permitted := Permitted(catalog, policy);
    BestIsHighestRanked(pass, candidate, permitted, best);
    forall item ensures IsOpen(pass, candidate, catalog, policy, item) <==>
      item in permitted && Replaces(pass, candidate, item)
    {
      PermittedMembers(catalog, policy, item);
    }
  }

  /** What is chosen for the requested item: the highest-ranked of its permitted upgrades if
      it has any, otherwise the highest-ranked of its permitted fallbacks, otherwise the
      item itself. */
  lemma ChoiceIsHighestRanked(request: Request, catalog: seq<Item>, policy: Option<Policy>, chosen: Item)
    returns (requested: Item)
    requires IsChoice(request, catalog, policy, Capability(chosen))
    ensures IsRequested(request, catalog, policy, requested)
    ensures if AnyOpen(HigherLevel, requested, catalog, policy)
            then IsBestOpen(HigherLevel, requested, catalog, policy, chosen)
            else if AnyOpen(RecentFailures, requested, catalog, policy)
            then IsBestOpen(RecentFailures, requested, catalog, policy, chosen)
            else chosen == requested
  {
    requested := RequestedItem(request, catalog, policy, chosen);
    var up, back := Replacements(requested, Permitted(catalog, policy), chosen);
    BestAmongPermitted(HigherLevel, requested, catalog, policy, up);
    BestAmongPermitted(RecentFailures, requested, catalog, policy, back);
  }

  /** The item has the kind and key asked for. */
  predicate IsNamed(request: Request, item: Item) {
    request.kind == Known(item.kind) && item.key == request.key
  }

  /** The policy blocks the item's tier, or allows only others. */
  predicate IsBarred(policy: Option<Policy>, item: Item) {
    policy.Some?
    && (item.permissionTier in policy.value.blockedTiers
        || (policy.value.allowedTiers != {} && item.permissionTier !in policy.value.allowedTiers))
  }

  /** When nothing is chosen although a kind and a key were asked for: no item of that kind
      and key is free of the policy. The refusal names the policy if there is an item it
      bars, and otherwise says that the item cannot be found. */
  lemma RefusalMeans(request: Request, catalog: seq<Item>, policy: Option<Policy>, choice: Choice)
    requires IsChoice(request, catalog, policy, choice)
    requires request.needsCapability != Some(false) && request.kind.Known? && request.key != ""
    ensures choice.Capability? <==>
            exists item :: item in catalog && IsNamed(request, item) && !IsBarred(policy, item)
    ensures choice.NoCapability? ==>
            choice.why ==
            if exists item :: item in catalog && IsNamed(request, item) then NotAllowed else NotDiscoverable
  {
    var kind, key, permitted := request.kind.kind, request.key, Permitted(catalog, policy);
    var found, any :| IsLookup(permitted, kind, key, found) && IsLookup(catalog, kind, key, any)
      && Answers(catalog, policy, found, any, choice);
    forall item ensures item in permitted <==> item in catalog && !IsBarred(policy, item) {
      PermittedMembers(catalog, policy, item);
    }
    if found.Some? {
      var k: nat :| IsIndexed(permitted, kind, key, k) && found.value == permitted[k];
      assert found.value in catalog && IsNamed(request, found.value);
    }
    if any.Some? {
      var k: nat :| IsIndexed(catalog, kind, key, k) && any.value == catalog[k];
      assert any.value in catalog && IsNamed(request, any.value);
    }
  }

  /** Whatever is chosen is in the catalog and allowed. A replacement does more than the
      requested item; or it is healthier, and no permitted item is an upgrade. */
  lemma ChoiceIsSound(request: Request, catalog: seq<Item>, policy: Option<Policy>, chosen: Item)
    returns (requested: Item)
    requires IsChoice(request, catalog, policy, Capability(chosen))
    ensures IsRequested(request, catalog, policy, requested)
    ensures chosen in catalog && Allows(policy, chosen)
    ensures policy.Some? ==> chosen.permissionTier !in policy.value.blockedTiers
    ensures policy.Some? && policy.value.allowedTiers != {} ==> chosen.permissionTier in policy.value.allowedTiers
    ensures chosen == requested || DoesMore(chosen, requested)
         || (IsHealthier(chosen, requested)
             && forall item :: item in catalog && Allows(policy, item) ==> !IsUpgrade(requested, item))
  {
    requested := RequestedItem(request, catalog, policy, chosen);
    forall item ensures item in Permitted(catalog, policy) <==> item in catalog && Allows(policy, item) {
      PermittedMembers(catalog, policy, item);
    }
    PreferredIsSound(requested, Permitted(catalog, policy), chosen);
  }
}
