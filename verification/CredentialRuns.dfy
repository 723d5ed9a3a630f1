/** Whole runs of the credential pool: rounds of selecting a credential, calling with
    it, and recording the outcome, one after the other. */
module CredentialRuns {
  import opened Basics
  import opened Credentials

  datatype Round = Round(selectedAt: int, finishedAt: int, success: bool)

  /** The position selected, if any. */
  ghost function Picked(pool: seq<Credential>, now: int): Option<nat> {
    if exists i: nat :: IsOldest(pool, now, i) then
      var i: nat :| IsOldest(pool, now, i); Some(i)
    else None
  }

  /** The pool after one round. Without a selectable credential the call uses the
      provider's own key and records nothing. */
  ghost function Step(pool: seq<Credential>, r: Round): seq<Credential> {
    var picked := Picked(pool, r.selectedAt);
    if picked.None? then pool
    else pool[picked.value := AfterCall(pool[picked.value], r.success, r.finishedAt)]
  }

  ghost function Run(pool: seq<Credential>, rounds: seq<Round>): seq<Credential> {
    if rounds == [] then pool
    else Step(Run(pool, rounds[..|rounds| - 1]), rounds[|rounds| - 1])
  }

  /** Calls finish after they were selected for. */
  ghost predicate Timed(rounds: seq<Round>) {
    forall k :: 0 <= k < |rounds| ==> rounds[k].selectedAt <= rounds[k].finishedAt
  }

  /** The position selected in round `k` of a run. */
  ghost function PickedIn(pool: seq<Credential>, rounds: seq<Round>, k: nat): Option<nat>
    requires k < |rounds|
  {
    Picked(Run(pool, rounds[..k]), rounds[k].selectedAt)
  }

  lemma PickedIsOldest(pool: seq<Credential>, now: int, i: nat)
    ensures Picked(pool, now) == Some(i) <==> IsOldest(pool, now, i)
  {
    if IsOldest(pool, now, i) {
      OldestIsUnique(pool, now, i, Picked(pool, now).value);
    }
  }

  // ---------- a round is a selection and an update of the settings ----------

  lemma OnlyIdentity(pool: seq<Credential>, i: nat, j: nat)
    requires Clean(pool) && i < |pool| && j < |pool| && Identity(pool[i].id) == Identity(pool[j].id)
    ensures i == j
  {
  }

  lemma AfterCallKeepsClean(pool: seq<Credential>, i: nat, success: bool, now: int)
    requires Clean(pool) && i < |pool|
    ensures Clean(pool[i := AfterCall(pool[i], success, now)])
  {
    var after := pool[i := AfterCall(pool[i], success, now)];
    assert forall k :: 0 <= k < |pool| ==> after[k].id == pool[k].id;
  }

  /** `picked` is what selection decides on. */
  ghost predicate IsSelection(pool: seq<Credential>, now: int, picked: Option<nat>) {
    if picked.None? then !AnySelectable(pool, now) else IsOldest(pool, now, picked.value)
  }

  /** The id the outcome is recorded under, empty for a call with the provider's own key. */
  ghost function RecordedId(pool: seq<Credential>, now: int, picked: Option<nat>): string
    requires IsSelection(pool, now, picked)
  {
    if picked.None? then "" else pool[picked.value].id
  }

  /** What the settings methods promise adds up to `Step`, whatever order or repeats the
      stored pool has, and whether or not a credential could be selected: recording the
      outcome under the selected id changes the normalized pool exactly as one round does. */
  lemma UpdateIsStep(stored: seq<Credential>, r: Round, picked: Option<nat>, after: seq<Credential>)
    requires IsSelection(Normalized(stored), r.selectedAt, picked)
    requires IsUpdate(stored, RecordedId(Normalized(stored), r.selectedAt, picked), r.success, r.finishedAt, after)
    ensures Normalized(after) == Step(Normalized(stored), r)
  {
    var pool := Normalized(stored);
    if picked.Some? {
      var i := picked.value;
      NormalizedIsClean(stored);
      PickedIsOldest(pool, r.selectedAt, i);
      assert Names(pool, Identity(pool[i].id));
      var k: nat :| IsUpdateAt(stored, pool[i].id, r.success, r.finishedAt, after, k);
      OnlyIdentity(pool, i, k);
      AfterCallKeepsClean(pool, i, r.success, r.finishedAt);
      CleanIsNormalized(pool[i := AfterCall(pool[i], r.success, r.finishedAt)]);
    }
  }

  // ---------- reachable states ----------

  /** Never used and without a recorded failure. */
  predicate Fresh(c: Credential) {
    c.status in {Active, Disabled} && c.cooldownUntil == None && c.failureCount == 0 && c.lastUsedAt == None
  }

  /** What a credential that began as `origin` can look like. */
  ghost predicate Legal(origin: Credential, c: Credential) {
    && c.id == origin.id && c.apiKey == origin.apiKey
    && (origin.status == Disabled ==> c == origin)
    && match c.status
       case Disabled => c == origin
       case Active => c.failureCount == 0 && c.cooldownUntil == None
       case CoolingDown =>
         && 1 <= c.failureCount <= 4 && c.lastUsedAt.Some?
         && c.cooldownUntil == Some(c.lastUsedAt.value + BASE_COOLDOWN_SECONDS * c.failureCount * SECOND)
       case Exhausted => c.failureCount == EXHAUSTED_FAILURE_COUNT && c.cooldownUntil == None
  }

  lemma WholeSecondShift(time: int, seconds: int)
    ensures WholeSecond(time + seconds * SECOND) == WholeSecond(time) + seconds * SECOND
  {
    assert (time + seconds * SECOND) % SECOND == time % SECOND;
  }

  lemma AfterCallIsLegal(origin: Credential, c: Credential, r: Round)
    requires Legal(origin, c) && Selectable(c, r.selectedAt)
    ensures Legal(origin, AfterCall(c, r.success, r.finishedAt))
  {
    if !r.success {
      WholeSecondShift(r.finishedAt, CooldownSeconds(c.failureCount + 1));
    }
  }

  /** Every state a run reaches from a fresh pool; in particular the cooldown is always
      60 seconds per failure, and the hour's cap never applies. */
  lemma {:induction false} ReachableStates(pool: seq<Credential>, rounds: seq<Round>)
    requires forall i :: 0 <= i < |pool| ==> Fresh(pool[i])
    ensures |Run(pool, rounds)| == |pool|
    ensures forall i :: 0 <= i < |pool| ==> Legal(pool[i], Run(pool, rounds)[i])
  {
    if rounds != [] {
      var init, last := rounds[..|rounds| - 1], rounds[|rounds| - 1];
      ReachableStates(pool, init);
      var before := Run(pool, init);
      var picked := Picked(before, last.selectedAt);
      if picked.Some? {
        PickedIsOldest(before, last.selectedAt, picked.value);
        AfterCallIsLegal(pool[picked.value], before[picked.value], last);
      }
    }
  }

  /** Out of use for good: no key, disabled or exhausted. */
  predicate Retired(c: Credential) {
    c.apiKey == "" || c.status == Disabled || c.status == Exhausted
  }

  lemma {:induction false} RunLength(pool: seq<Credential>, rounds: seq<Round>)
    ensures |Run(pool, rounds)| == |pool|
  {
    if rounds != [] {
      var init, last := rounds[..|rounds| - 1], rounds[|rounds| - 1];
      RunLength(pool, init);
      var picked := Picked(Run(pool, init), last.selectedAt);
      if picked.Some? {
        PickedIsOldest(Run(pool, init), last.selectedAt, picked.value);
      }
    }
  }

  /** A retired credential is never selected again, so it never changes again. */
  lemma {:induction false} RetiredStays(pool: seq<Credential>, rounds: seq<Round>, i: nat, now: int)
    requires i < |pool| && Retired(pool[i])
    ensures i < |Run(pool, rounds)| && Run(pool, rounds)[i] == pool[i]
    ensures Picked(Run(pool, rounds), now) != Some(i)
  {
    PickedIsOldest(Run(pool, rounds), now, i);
    if rounds != [] {
      var init, last := rounds[..|rounds| - 1], rounds[|rounds| - 1];
      RetiredStays(pool, init, i, last.selectedAt);
      RunLength(pool, init);
      var picked := Picked(Run(pool, init), last.selectedAt);
      if picked.Some? {
        PickedIsOldest(Run(pool, init), last.selectedAt, picked.value);
      }
    }
  }

  // ---------- exhaustion takes time ----------

  /** When the calls of credential `i`'s current run of failures finished. */
  ghost function Failures(pool: seq<Credential>, rounds: seq<Round>, i: nat): seq<int> {
    if rounds == [] then []
    else
      var init, last := rounds[..|rounds| - 1], rounds[|rounds| - 1];
      if Picked(Run(pool, init), last.selectedAt) != Some(i) then Failures(pool, init, i)
      else if last.success then []
      else Failures(pool, init, i) + [last.finishedAt]
  }

  /** After the k-th failure the next one is at least k minutes of whole seconds away. */
  ghost predicate Spaced(times: seq<int>) {
    forall k :: 0 < k < |times| ==> times[k] >= WholeSecond(times[k - 1]) + BASE_COOLDOWN_SECONDS * k * SECOND
  }

  lemma {:induction false} FailuresAreSpaced(pool: seq<Credential>, rounds: seq<Round>, i: nat)
    requires forall j :: 0 <= j < |pool| ==> Fresh(pool[j])
    requires Timed(rounds) && i < |pool|
    ensures |Run(pool, rounds)| == |pool|
    ensures var c, times := Run(pool, rounds)[i], Failures(pool, rounds, i);
            && |times| == c.failureCount && Spaced(times)
            && (times != [] ==> c.lastUsedAt == Some(WholeSecond(times[|times| - 1])))
  {
    RunLength(pool, rounds);
    if rounds != [] {
      var init, last := rounds[..|rounds| - 1], rounds[|rounds| - 1];
      FailuresAreSpaced(pool, init, i);
      ReachableStates(pool, init);
      var picked := Picked(Run(pool, init), last.selectedAt);
      if picked.Some? {
        PickedIsOldest(Run(pool, init), last.selectedAt, picked.value);
      }
    }
  }

  lemma WholeSecondBounds(time: int)
    ensures WholeSecond(time) <= time < WholeSecond(time) + SECOND
    ensures WholeSecond(WholeSecond(time)) == WholeSecond(time)
  {
  }

  lemma WholeSecondAtLeast(time: int, whole: int)
    requires time >= whole && WholeSecond(whole) == whole
    ensures WholeSecond(time) >= whole
  {
  }

  lemma {:induction false} SpacedTotal(times: seq<int>, k: nat)
    requires Spaced(times) && k < |times|
    ensures WholeSecond(times[k]) - WholeSecond(times[0]) >= 30 * k * (k + 1) * SECOND
  {
    if k > 0 {
      SpacedTotal(times, k - 1);
      var gap := BASE_COOLDOWN_SECONDS * k;
      WholeSecondBounds(times[k - 1]);
      WholeSecondShift(WholeSecond(times[k - 1]), gap);
      WholeSecondAtLeast(times[k], WholeSecond(times[k - 1]) + gap * SECOND);
      assert 30 * k * (k + 1) == 30 * (k - 1) * k + gap;
    }
  }

  /** An exhausted credential has failed five times in a row, 600 whole seconds or more
      from the first to the fifth, which is more than 599 seconds of real time. */
  lemma ExhaustionTakesTime(pool: seq<Credential>, rounds: seq<Round>, i: nat)
    requires forall j :: 0 <= j < |pool| ==> Fresh(pool[j])
    requires Timed(rounds) && i < |pool|
    ensures |Run(pool, rounds)| == |pool|
    ensures Run(pool, rounds)[i].status == Exhausted ==>
              var times := Failures(pool, rounds, i);
              && |times| == 5
              && WholeSecond(times[4]) - WholeSecond(times[0]) >= 600 * SECOND
              && times[4] - times[0] > 599 * SECOND
  {
    FailuresAreSpaced(pool, rounds, i);
    ReachableStates(pool, rounds);
    if Run(pool, rounds)[i].status == Exhausted {
      var times := Failures(pool, rounds, i);
      SpacedTotal(times, 4);
      WholeSecondBounds(times[4]);
      WholeSecondBounds(times[0]);
    }
  }

  lemma SingleStep(c: Credential, rounds: seq<Round>, k: nat, before: Credential)
    requires k < |rounds| && Run([c], rounds[..k]) == [before] && Selectable(before, rounds[k].selectedAt)
    ensures Run([c], rounds[..k + 1]) == [AfterCall(before, rounds[k].success, rounds[k].finishedAt)]
    ensures Failures([c], rounds[..k + 1], 0) ==
            if rounds[k].success then [] else Failures([c], rounds[..k], 0) + [rounds[k].finishedAt]
  {
    assert rounds[..k + 1][..k] == rounds[..k];
    PickedIsOldest([before], rounds[k].selectedAt, 0);
  }

  /** Five failures as early as the cooldowns allow, the first at the end of its second. */
  const EARLY_FAILURES: seq<Round> := [
    Round(0, SECOND - 1, false),
    Round(60 * SECOND, 60 * SECOND, false),
    Round(180 * SECOND, 180 * SECOND, false),
    Round(360 * SECOND, 360 * SECOND, false),
    Round(600 * SECOND, 600 * SECOND, false)]

  /** `now` has failed `k` times and can be selected for the next early failure. */
  predicate ReadyToFail(now: Credential, k: nat)
    requires k <= 5
  {
    && now.apiKey != "" && now.failureCount == k
    && if k == 5 then now.status == Exhausted
       else now.status in {Active, CoolingDown} && now.cooldownUntil in {None, Some(EARLY_FAILURES[k].selectedAt)}
  }

  lemma FailsEarly(before: Credential, k: nat)
    requires k < 5 && ReadyToFail(before, k)
    ensures Selectable(before, EARLY_FAILURES[k].selectedAt) && !EARLY_FAILURES[k].success
    ensures ReadyToFail(AfterCall(before, false, EARLY_FAILURES[k].finishedAt), k + 1)
  {
  }

  lemma {:induction false} EarlyFailures(c: Credential, k: nat) returns (now: Credential)
    requires Fresh(c) && c.status == Active && c.apiKey != "" && k <= 5
    ensures Run([c], EARLY_FAILURES[..k]) == [now] && ReadyToFail(now, k)
    ensures var times := Failures([c], EARLY_FAILURES[..k], 0);
            |times| == k && forall j :: 0 <= j < k ==> times[j] == EARLY_FAILURES[j].finishedAt
  {
    if k == 0 {
      now := c;
    } else {
      var before := EarlyFailures(c, k - 1);
      FailsEarly(before, k - 1);
      SingleStep(c, EARLY_FAILURES, k - 1, before);
      now := AfterCall(before, false, EARLY_FAILURES[k - 1].finishedAt);
    }
  }

  /** Real time is not whole seconds: a key can be exhausted 599.000001 seconds after its
      first failure. */
  lemma ExhaustedBefore600Seconds(c: Credential)
    requires Fresh(c) && c.status == Active && c.apiKey != ""
    ensures Timed(EARLY_FAILURES)
    ensures |Run([c], EARLY_FAILURES)| == 1 && Run([c], EARLY_FAILURES)[0].status == Exhausted
    ensures var times := Failures([c], EARLY_FAILURES, 0);
            |times| == 5 && times[4] - times[0] == 599 * SECOND + 1
  {
    var now := EarlyFailures(c, 5);
    assert EARLY_FAILURES[..5] == EARLY_FAILURES;
  }

  // ---------- fair rotation ----------

  /** Between `now` and `until`, no credential becomes selectable that was not: the others
      are cooling down all the time, or out of use for good. */
  ghost predicate Steady(pool: seq<Credential>, now: int, until: int) {
    forall i :: 0 <= i < |pool| ==> Selectable(pool[i], now) || Retired(pool[i]) || IsCoolingDown(pool[i], until)
  }

  /** `order` lists positions of the pool, longest waiting first. */
  ghost predicate ByLastUse(pool: seq<Credential>, order: seq<nat>) {
    && (forall a :: 0 <= a < |order| ==> order[a] < |pool|)
    && forall a, b :: 0 <= a < b < |order| ==> UsedBefore(pool, order[a], order[b])
  }

  /** `order` lists the selectable positions, longest waiting first. */
  ghost predicate IsQueue(pool: seq<Credential>, now: int, order: seq<nat>) {
    (forall i :: i in order <==> 0 <= i < |pool| && Selectable(pool[i], now)) && ByLastUse(pool, order)
  }

  /** Successful rounds selected for between `now` and `until`, each finishing in a later
      second than every use before it. */
  ghost predicate SteadySuccess(pool: seq<Credential>, now: int, until: int, rounds: seq<Round>) {
    && (forall k :: 0 <= k < |rounds| ==> rounds[k].success && now <= rounds[k].selectedAt <= until)
    && (forall k, i :: 0 <= k < |rounds| && 0 <= i < |pool| ==> LastUse(pool[i]) < WholeSecond(rounds[k].finishedAt))
    && (forall j, k :: 0 <= j < k < |rounds| ==> WholeSecond(rounds[j].finishedAt) < WholeSecond(rounds[k].finishedAt))
  }

  lemma QueueFrontIsPicked(pool: seq<Credential>, now: int, until: int, order: seq<nat>, later: int)
    requires Steady(pool, now, until) && IsQueue(pool, now, order) && order != [] && now <= later <= until
    ensures Picked(pool, later) == Some(order[0])
  {
    var front := order[0];
    assert front in order;
    forall j | 0 <= j < |pool| && Selectable(pool[j], later) && j != front ensures UsedBefore(pool, front, j) {
      assert j in order;
    }
    PickedIsOldest(pool, later, front);
  }

  /** A successful round moves the front of the queue to its end. */
  lemma SuccessRotatesQueue(pool: seq<Credential>, now: int, until: int, order: seq<nat>, r: Round)
    requires Steady(pool, now, until) && IsQueue(pool, now, order) && order != []
    requires r.success && now <= r.selectedAt <= until
    requires forall i :: 0 <= i < |pool| ==> LastUse(pool[i]) < WholeSecond(r.finishedAt)
    ensures var after := Step(pool, r);
            && |after| == |pool| && Steady(after, now, until) && IsQueue(after, now, order[1..] + [order[0]])
            && forall i :: 0 <= i < |pool| ==> LastUse(after[i]) <= WholeSecond(r.finishedAt)
  {
    QueueFrontIsPicked(pool, now, until, order, r.selectedAt);
    var front, after := order[0], Step(pool, r);
    assert front in order;
    assert forall i :: 0 <= i < |pool| && i != front ==> after[i] == pool[i];
    var moved := order[1..] + [front];
    assert forall i :: i in order <==> i == front || i in order[1..];
    forall a, b | 0 <= a < b < |moved|
      ensures moved[a] < |after| && moved[b] < |after| && UsedBefore(after, moved[a], moved[b])
    {
      assert moved[a] == order[a + 1];
      assert UsedBefore(pool, order[0], order[a + 1]);
      if b < |order| - 1 {
        assert moved[b] == order[b + 1];
        assert UsedBefore(pool, order[0], order[b + 1]);
      }
    }
  }

  /** The place `k` in a queue of `n` that is gone through again and again. */
  function Turn(n: nat, k: nat): nat
    requires n > 0
    decreases k
  {
    if k < n then k else Turn(n, k - n)
  }

  lemma {:induction false} NextTurn(n: nat, k: nat)
    requires n > 0
    ensures Turn(n, k) < n
    ensures Turn(n, k + 1) == if Turn(n, k) + 1 < n then Turn(n, k) + 1 else 0
    decreases k
  {
    if k >= n {
      NextTurn(n, k - n);
    }
  }

  function Rotated(order: seq<nat>, at: nat): seq<nat>
    requires at < |order|
  {
    order[at..] + order[..at]
  }

  lemma RotateOnce(order: seq<nat>, at: nat)
    requires at < |order|
    ensures Rotated(order, at)[0] == order[at]
    ensures Rotated(order, if at + 1 < |order| then at + 1 else 0) == Rotated(order, at)[1..] + [order[at]]
  {
    if at + 1 == |order| {
      assert order == order[..at] + [order[at]];
    }
  }

  /** The pool after `k` rounds, its queue turned by `at`. */
  ghost predicate Turned(pool: seq<Credential>, now: int, until: int, order: seq<nat>, at: nat, rounds: seq<Round>,
                         k: nat)
    requires at < |order|
  {
    && Steady(pool, now, until) && IsQueue(pool, now, Rotated(order, at))
    && forall i, j :: 0 <= i < |pool| && k <= j < |rounds| ==> LastUse(pool[i]) < WholeSecond(rounds[j].finishedAt)
  }

  lemma QueueAtStart(pool: seq<Credential>, now: int, until: int, order: seq<nat>, rounds: seq<Round>)
    requires Steady(pool, now, until) && IsQueue(pool, now, order) && order != []
    requires SteadySuccess(pool, now, until, rounds)
    ensures Turned(pool, now, until, order, 0, rounds, 0)
  {
    assert Rotated(order, 0) == order;
  }

  lemma {:induction false} QueueAfterRounds(pool: seq<Credential>, now: int, until: int, order: seq<nat>,
                                            rounds: seq<Round>, k: nat)
    requires order != [] && Turned(pool, now, until, order, 0, rounds, 0)
    requires SteadySuccess(pool, now, until, rounds) && k <= |rounds|
    ensures Turn(|order|, k) < |order|
    ensures Turned(Run(pool, rounds[..k]), now, until, order, Turn(|order|, k), rounds, k)
  {
    if k == 0 {
      assert Run(pool, rounds[..0]) == pool;
    } else {
      QueueAfterRounds(pool, now, until, order, rounds, k - 1);
      NextTurn(|order|, k - 1);
      RunOneMore(pool, rounds, k - 1);
      OneMoreTurn(Run(pool, rounds[..k - 1]), now, until, order, Turn(|order|, k - 1), rounds, k - 1,
                  Run(pool, rounds[..k]), k, Turn(|order|, k));
    }
  }

  lemma RunOneMore(pool: seq<Credential>, rounds: seq<Round>, k: nat)
    requires k < |rounds|
    ensures Run(pool, rounds[..k + 1]) == Step(Run(pool, rounds[..k]), rounds[k])
  {
    assert rounds[..k + 1][..k] == rounds[..k];
  }

  lemma OneMoreTurn(pool: seq<Credential>, now: int, until: int, order: seq<nat>, at: nat, rounds: seq<Round>, k: nat,
                    pool': seq<Credential>, k': nat, at': nat)
    requires at < |order| && k < |rounds| && Turned(pool, now, until, order, at, rounds, k)
    requires pool' == Step(pool, rounds[k]) && k' == k + 1 && at' == if at + 1 < |order| then at + 1 else 0
    requires rounds[k].success && now <= rounds[k].selectedAt <= until
    requires forall j :: k < j < |rounds| ==> WholeSecond(rounds[k].finishedAt) < WholeSecond(rounds[j].finishedAt)
    ensures Turned(pool', now, until, order, at', rounds, k')
  {
    RotateOnce(order, at);
    SuccessRotatesQueue(pool, now, until, Rotated(order, at), rounds[k]);
  }

  /** Round `k` uses the credential whose turn it is. */
  lemma RoundsCycle(pool: seq<Credential>, now: int, until: int, order: seq<nat>, rounds: seq<Round>, k: nat)
    requires Steady(pool, now, until) && IsQueue(pool, now, order) && order != []
    requires SteadySuccess(pool, now, until, rounds) && k < |rounds|
    ensures Turn(|order|, k) < |order|
    ensures PickedIn(pool, rounds, k) == Some(order[Turn(|order|, k)])
  {
    QueueAtStart(pool, now, until, order, rounds);
    QueueAfterRounds(pool, now, until, order, rounds, k);
    var at := Turn(|order|, k);
    RotateOnce(order, at);
    QueueFrontIsPicked(Run(pool, rounds[..k]), now, until, Rotated(order, at), rounds[k].selectedAt);
  }

  // ---------- every pool has its queue ----------

  lemma {:induction false} OldestOf(pool: seq<Credential>, rest: set<nat>) returns (i: nat)
    requires rest != {} && forall j :: j in rest ==> j < |pool|
    ensures i in rest && forall j :: j in rest && j != i ==> UsedBefore(pool, i, j)
    decreases |rest|
  {
    i :| i in rest;
    if rest != {i} {
      var k := OldestOf(pool, rest - {i});
      var other := i;
      if UsedBefore(pool, k, i) {
        i, other := k, i;
      }
      forall j | j in rest && j != i ensures UsedBefore(pool, i, j) {
        assert j in rest - {other} || j == other;
      }
    }
  }

  lemma {:induction false} QueueOf(pool: seq<Credential>, rest: set<nat>) returns (order: seq<nat>)
    requires forall j :: j in rest ==> j < |pool|
    ensures |order| == |rest| && forall i :: i in order <==> i in rest
    ensures ByLastUse(pool, order)
    decreases |rest|
  {
    if rest == {} {
      order := [];
    } else {
      var i := OldestOf(pool, rest);
      var tail := QueueOf(pool, rest - {i});
      assert forall b :: 0 <= b < |tail| ==> tail[b] in tail;
      order := [i] + tail;
    }
  }

  ghost function SelectableSet(pool: seq<Credential>, now: int): set<nat> {
    set i: nat | i < |pool| && Selectable(pool[i], now)
  }

  /** Between rounds `lo` and `hi`, round `k` and no other picks credential `i`. */
  ghost predicate UsesOnly(pool: seq<Credential>, rounds: seq<Round>, lo: nat, hi: nat, k: nat, i: nat)
    requires hi <= |rounds|
  {
    && lo <= k < hi
    && forall j :: lo <= j < hi ==> (PickedIn(pool, rounds, j) == Some(i) <==> j == k)
  }

  /** As long as no credential comes out of its cooldown: with n selectable credentials, any
      n consecutive rounds use each of them exactly once, and every round picks the
      credential of the round n later. */
  lemma FairRotation(pool: seq<Credential>, now: int, until: int, rounds: seq<Round>, start: nat, i: nat)
    requires Steady(pool, now, until) && SteadySuccess(pool, now, until, rounds)
    requires i in SelectableSet(pool, now) && start + |SelectableSet(pool, now)| <= |rounds|
    ensures exists k {:trigger PickedIn(pool, rounds, k)} ::
              UsesOnly(pool, rounds, start, start + |SelectableSet(pool, now)|, k, i)
    ensures var n := |SelectableSet(pool, now)|;
            forall k {:trigger PickedIn(pool, rounds, k)} :: 0 <= k && k + n < |rounds| ==>
              PickedIn(pool, rounds, k + n) == PickedIn(pool, rounds, k)
  {
    var order := QueueOf(pool, SelectableSet(pool, now));
    var n := |order|;
    assert i in order;
    var at: nat :| at < n && order[at] == i;
    forall k | 0 <= k < |rounds| ensures Turn(n, k) < n && PickedIn(pool, rounds, k) == Some(order[Turn(n, k)]) {
      RoundsCycle(pool, now, until, order, rounds, k);
    }
    var k := OnceAround(start, n, at);
    forall j | start <= j < start + n ensures PickedIn(pool, rounds, j) == Some(i) <==> j == k {
      if order[Turn(n, j)] == i {
        assert Turn(n, j) == at;
      }
    }
    assert UsesOnly(pool, rounds, start, start + n, k, i);
    assert PickedIn(pool, rounds, k) == Some(i);
  }

  /** Every n turns in a row come to the place `at` exactly once. */
  lemma {:induction false} OnceAround(start: nat, n: nat, at: nat) returns (k: nat)
    requires at < n
    ensures start <= k < start + n && Turn(n, k) == at
    ensures forall j :: start <= j < start + n && Turn(n, j) == at ==> j == k
  {
    if start == 0 {
      k := at;
    } else {
      k := OnceAround(start - 1, n, at);
      if k == start - 1 {
        k := k + n;
      }
      assert Turn(n, start - 1 + n) == Turn(n, start - 1);
    }
  }

  // ---------- a pool that was never used ----------

  /** The positions of the credentials with a key that are not disabled, in pool order. */
  function Usable(pool: seq<Credential>): seq<nat> {
    if pool == [] then []
    else
      var last := |pool| - 1;
      Usable(pool[..last]) + (if pool[last].apiKey != "" && pool[last].status != Disabled then [last] else [])
  }

  lemma {:induction false} UsableInOrder(pool: seq<Credential>)
    ensures forall i :: i in Usable(pool) <==> 0 <= i < |pool| && pool[i].apiKey != "" && pool[i].status != Disabled
    ensures forall a, b :: 0 <= a < b < |Usable(pool)| ==> Usable(pool)[a] < Usable(pool)[b]
  {
    if pool != [] {
      var last := |pool| - 1;
      var before := Usable(pool[..last]);
      UsableInOrder(pool[..last]);
      forall a | 0 <= a < |before| ensures before[a] < last {
        assert before[a] in before;
      }
    }
  }

  /** Some time before and some after all selections. */
  lemma {:induction false} Bounds(rounds: seq<Round>) returns (now: int, until: int)
    ensures forall k :: 0 <= k < |rounds| ==> now <= rounds[k].selectedAt <= until
  {
    if rounds == [] {
      now, until := 0, 0;
    } else {
      now, until := Bounds(rounds[1..]);
      var at := rounds[0].selectedAt;
      now, until := if at < now then at else now, if at > until then at else until;
      assert forall k :: 0 < k < |rounds| ==> rounds[k] == rounds[1..][k - 1];
    }
  }

  lemma {:induction false} TurnOf(n: nat, times: nat, at: nat)
    requires at < n
    ensures times * n + at >= 0 && Turn(n, times * n + at) == at
    decreases times
  {
    if times > 0 {
      TurnOf(n, times - 1, at);
      assert times * n + at == (times - 1) * n + at + n;
    }
  }

  lemma FreshQueue(pool: seq<Credential>, now: int, until: int)
    requires forall i :: 0 <= i < |pool| ==> Fresh(pool[i])
    ensures Steady(pool, now, until) && IsQueue(pool, now, Usable(pool))
  {
    UsableInOrder(pool);
    var order := Usable(pool);
    forall a | 0 <= a < |order| ensures order[a] < |pool| {
      assert order[a] in order;
    }
    forall a, b | 0 <= a < b < |order| ensures UsedBefore(pool, order[a], order[b]) {
    }
  }

  /** The usable credentials of a pool never used before are picked one after the other in
      pool order, again and again, as long as calls succeed and finish in later and later
      seconds of our era: the round after `times` full turns and `at` more rounds uses the
      one at place `at`. */
  lemma FreshRotation(pool: seq<Credential>, rounds: seq<Round>, times: nat, at: nat)
    requires forall i :: 0 <= i < |pool| ==> Fresh(pool[i])
    requires forall j :: 0 <= j < |rounds| ==>
      rounds[j].success && WholeSecond(rounds[j].finishedAt) > -62_135_596_800_000_000
    requires forall i, j :: 0 <= i < j < |rounds| ==>
      WholeSecond(rounds[i].finishedAt) < WholeSecond(rounds[j].finishedAt)
    requires at < |Usable(pool)| && 0 <= times * |Usable(pool)| + at < |rounds|
    ensures PickedIn(pool, rounds, times * |Usable(pool)| + at) == Some(Usable(pool)[at])
  {
    var now, until := Bounds(rounds);
    var order := Usable(pool);
    FreshQueue(pool, now, until);
    TurnOf(|order|, times, at);
    RoundsCycle(pool, now, until, order, rounds, times * |order| + at);
  }

  // ---------- waiting ----------

  lemma PlaceOf(pool: seq<Credential>, order: seq<nat>, i: nat) returns (place: nat)
    requires ByLastUse(pool, order) && i < |pool| && i !in order
    ensures place <= |order|
    ensures forall a :: 0 <= a < |order| ==> (UsedBefore(pool, order[a], i) <==> a < place)
    ensures forall a :: place <= a < |order| ==> UsedBefore(pool, i, order[a])
  {
    place := 0;
    while place < |order| && UsedBefore(pool, order[place], i)
      invariant place <= |order|
      invariant forall a :: 0 <= a < place ==> UsedBefore(pool, order[a], i)
    {
      place := place + 1;
    }
    if place < |order| {
      assert order[place] != i;
    }
  }

  function InsertedAt(order: seq<nat>, place: nat, i: nat): seq<nat>
    requires place <= |order|
  {
    order[..place] + [i] + order[place..]
  }

  lemma InsertedKeepsOrder(pool: seq<Credential>, order: seq<nat>, place: nat, i: nat)
    requires ByLastUse(pool, order) && i < |pool| && place <= |order|
    requires forall a :: 0 <= a < place ==> UsedBefore(pool, order[a], i)
    requires forall a :: place <= a < |order| ==> UsedBefore(pool, i, order[a])
    ensures ByLastUse(pool, InsertedAt(order, place, i))
  {
    var joined := InsertedAt(order, place, i);
    forall a | 0 <= a < |joined|
      ensures joined[a] == if a < place then order[a] else if a == place then i else order[a - 1]
    {
    }
  }

  lemma InsertedHolds(order: seq<nat>, place: nat, i: nat, j: nat)
    requires place <= |order|
    ensures j in InsertedAt(order, place, i) <==> j == i || j in order
  {
    assert order == order[..place] + order[place..];
  }

  /** A credential that comes out of its cooldown joins the queue: behind those that have
      waited longer, before all others. */
  lemma JoinsQueue(pool: seq<Credential>, now: int, order: seq<nat>, i: nat, later: int) returns (place: nat)
    requires IsQueue(pool, now, order) && i < |pool| && now <= later
    requires !Selectable(pool[i], now) && Selectable(pool[i], later)
    requires forall j :: 0 <= j < |pool| && j != i && Selectable(pool[j], later) ==> Selectable(pool[j], now)
    ensures place <= |order| && IsQueue(pool, later, InsertedAt(order, place, i))
    ensures forall a :: 0 <= a < |order| ==> order[a] < |pool| && (UsedBefore(pool, order[a], i) <==> a < place)
  {
    assert forall a :: 0 <= a < |order| ==> order[a] in order;
    place := PlaceOf(pool, order, i);
    InsertedKeepsOrder(pool, order, place, i);
    forall j ensures j in InsertedAt(order, place, i) <==> j == i || j in order {
      InsertedHolds(order, place, i, j);
    }
  }

  /** The credentials that may still be picked before `i`: used before it, and selectable by
      `until`. */
  ghost function Rivals(pool: seq<Credential>, i: nat, until: int): set<nat>
    requires i < |pool|
  {
    set j: nat | j < |pool| && UsedBefore(pool, j, i) && Selectable(pool[j], until)
  }

  /** A round that does not pick a selectable credential has one rival less for it, whatever
      comes of the call. */
  lemma RivalFallsBack(pool: seq<Credential>, i: nat, until: int, r: Round)
    requires i < |pool| && Selectable(pool[i], r.selectedAt) && r.selectedAt <= until
    requires LastUse(pool[i]) < WholeSecond(r.finishedAt) && Picked(pool, r.selectedAt) != Some(i)
    ensures |Step(pool, r)| == |pool| && Step(pool, r)[i] == pool[i]
    ensures |Rivals(Step(pool, r), i, until)| < |Rivals(pool, i, until)|
  {
    assert i in SelectableSet(pool, r.selectedAt);
    var j := OldestOf(pool, SelectableSet(pool, r.selectedAt));
    PickedIsOldest(pool, r.selectedAt, j);
    assert Rivals(Step(pool, r), i, until) == Rivals(pool, i, until) - {j};
  }

  lemma {:induction false} StillWaiting(pool: seq<Credential>, i: nat, now: int, until: int, rounds: seq<Round>, k: nat)
    requires i < |pool| && Selectable(pool[i], now) && k <= |rounds|
    requires forall j :: 0 <= j < k ==>
      now <= rounds[j].selectedAt <= until && LastUse(pool[i]) < WholeSecond(rounds[j].finishedAt)
    requires forall j :: 0 <= j < k ==> PickedIn(pool, rounds, j) != Some(i)
    ensures |Run(pool, rounds[..k])| == |pool| && Run(pool, rounds[..k])[i] == pool[i]
    ensures k + |Rivals(Run(pool, rounds[..k]), i, until)| <= |Rivals(pool, i, until)|
  {
    if k == 0 {
      assert rounds[..0] == [];
    } else {
      StillWaiting(pool, i, now, until, rounds, k - 1);
      RunOneMore(pool, rounds, k - 1);
      assert PickedIn(pool, rounds, k - 1) != Some(i);
      RivalFallsBack(Run(pool, rounds[..k - 1]), i, until, rounds[k - 1]);
    }
  }

  /** No credential starves, whether calls succeed or fail and whoever comes out of a
      cooldown meanwhile: from the moment it can be selected, a credential is picked before
      more rounds have passed than there were rivals, as long as rounds finish in later
      seconds than its last use. */
  lemma WaitIsBounded(pool: seq<Credential>, i: nat, now: int, until: int, rounds: seq<Round>)
    requires i < |pool| && Selectable(pool[i], now)
    requires forall k :: 0 <= k < |rounds| ==>
      now <= rounds[k].selectedAt <= until && LastUse(pool[i]) < WholeSecond(rounds[k].finishedAt)
    requires |rounds| > |Rivals(pool, i, until)|
    ensures exists k :: 0 <= k <= |Rivals(pool, i, until)| && PickedIn(pool, rounds, k) == Some(i)
    ensures |Rivals(pool, i, until)| < |pool|
  {
    var rivals := |Rivals(pool, i, until)|;
    if forall k :: 0 <= k <= rivals ==> PickedIn(pool, rounds, k) != Some(i) {
      StillWaiting(pool, i, now, until, rounds, rivals + 1);
    }
    FewerThan(Rivals(pool, i, until), |pool|, i);
  }

  lemma {:induction false} FewerThan(s: set<nat>, n: nat, i: nat)
    requires i < n && i !in s && forall j :: j in s ==> j < n
    ensures |s| < n
  {
    if n - 1 in s {
      if i < n - 1 {
        FewerThan(s - {n - 1}, n - 1, i);
      }
    } else if i == n - 1 {
      AtMost(s, n - 1);
    } else {
      FewerThan(s, n - 1, i);
    }
  }

  lemma {:induction false} AtMost(s: set<nat>, n: nat)
    requires forall j :: j in s ==> j < n
    ensures |s| <= n
  {
    if n > 0 {
      AtMost(s - {n - 1}, n - 1);
    }
  }

  /** Within one second the rotation is not fair: a credential that has just succeeded is
      picked again exactly when every other selectable one was last used later, or in the
      same second at a later position. */
  lemma RepeatedPick(pool: seq<Credential>, r: Round, i: nat, later: int)
    requires Picked(pool, r.selectedAt) == Some(i) && r.success
    ensures Picked(Step(pool, r), later) == Some(i) <==>
            forall j :: 0 <= j < |pool| && j != i && Selectable(pool[j], later) ==>
              LastUse(pool[j]) > WholeSecond(r.finishedAt) || (LastUse(pool[j]) == WholeSecond(r.finishedAt) && j > i)
  {
    PickedIsOldest(pool, r.selectedAt, i);
    var after := Step(pool, r);
    PickedIsOldest(after, later, i);
    assert forall j :: 0 <= j < |pool| && j != i ==> after[j] == pool[j];
    if IsOldest(after, later, i) {
      forall j | 0 <= j < |pool| && j != i && Selectable(pool[j], later)
        ensures LastUse(pool[j]) > WholeSecond(r.finishedAt) || (LastUse(pool[j]) == WholeSecond(r.finishedAt) && j > i)
      {
        assert UsedBefore(after, i, j);
      }
    }
  }
}
