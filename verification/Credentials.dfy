/** A provider's pool of credentials: normalization, least-recently-used selection, and
    the update after a call. Times are microseconds since the epoch; stored timestamps
    are cut to whole seconds. */
module Credentials {
  import opened Basics

  const BASE_COOLDOWN_SECONDS := 60
  const MAX_COOLDOWN_SECONDS := 3600
  const EXHAUSTED_FAILURE_COUNT := 5
  const SECOND := 1_000_000

  /** Sorts before every timestamp: the first instant of year 1. */
  const NEVER_USED := -62_135_596_800 * SECOND

  datatype Status = Active | CoolingDown | Disabled | Exhausted

  datatype Credential = Credential(
    id: string,
    apiKey: string,
    status: Status,
    cooldownUntil: Option<int>,
    failureCount: int,
    lastUsedAt: Option<int>)

  /** A timestamp as it is stored, without its fraction of a second. */
  function WholeSecond(time: int): int {
    time - time % SECOND
  }

  function CooldownSeconds(failureCount: int): int {
    var seconds := BASE_COOLDOWN_SECONDS * (if failureCount < 1 then 1 else failureCount);
    if seconds < MAX_COOLDOWN_SECONDS then seconds else MAX_COOLDOWN_SECONDS
  }

  // ---------- normalization ----------

  function Lower(c: char): char {
    if 'A' <= c <= 'Z' then c - 'A' + 'a' else c
  }

  /** Credential ids are the same when they agree up to case. */
  function Identity(id: string): string {
    seq(|id|, i requires 0 <= i < |id| => Lower(id[i]))
  }

  /** Ids have one identity exactly if they agree character by character, but for the case of
      ASCII letters. */
  lemma IdentityMeans(a: string, b: string)
    ensures Identity(a) == Identity(b) <==>
            |a| == |b| && forall i :: 0 <= i < |a| ==>
              || a[i] == b[i]
              || ('A' <= a[i] <= 'Z' && b[i] as int == a[i] as int + 32)
              || ('A' <= b[i] <= 'Z' && a[i] as int == b[i] as int + 32)
  {
    if Identity(a) == Identity(b) {
      assert |a| == |Identity(a)| && |b| == |Identity(b)|;
      forall i | 0 <= i < |a| ensures Lower(a[i]) == Lower(b[i]) {
        assert Identity(a)[i] == Identity(b)[i];
      }
    }
  }

  predicate Names(pool: seq<Credential>, identity: string) {
    exists i :: 0 <= i < |pool| && Identity(pool[i].id) == identity
  }

  function WithCount(c: Credential): Credential {
    c.(failureCount := if c.failureCount < 0 then 0 else c.failureCount)
  }

  /** The pool without nameless records and without later records of a known identity. */
  function Normalized(items: seq<Credential>): seq<Credential> {
    if items == [] then []
    else
      var before, item := Normalized(items[..|items| - 1]), items[|items| - 1];
      if item.id == "" || Names(before, Identity(item.id)) then before else before + [WithCount(item)]
  }

  /** What normalization establishes. */
  ghost predicate Clean(pool: seq<Credential>) {
    && (forall i :: 0 <= i < |pool| ==> pool[i].id != "" && pool[i].failureCount >= 0)
    && (forall i, j :: 0 <= i < j < |pool| ==> Identity(pool[i].id) != Identity(pool[j].id))
  }

  method Normalize(items: seq<Credential>) returns (credentials: seq<Credential>)
    ensures credentials == Normalized(items)
  {
    credentials := [];
    var seen: set<string> := {};
    for k := 0 to |items|
      invariant credentials == Normalized(items[..k])
      invariant forall identity :: identity in seen <==> Names(credentials, identity)
    {
      var item := items[k];
      assert items[..k + 1][..k] == items[..k];
      if item.id != "" && Identity(item.id) !in seen {
        seen := seen + {Identity(item.id)};
        ghost var before := credentials;
        credentials := credentials + [WithCount(item)];
        forall identity ensures identity in seen <==> Names(credentials, identity) {
          NamesOneMore(before, WithCount(item), identity);
        }
      }
    }
    assert items[..|items|] == items;
  }

  lemma NamesOneMore(pool: seq<Credential>, c: Credential, identity: string)
    ensures Names(pool + [c], identity) <==> Names(pool, identity) || Identity(c.id) == identity
  {
    var more := pool + [c];
    assert more[|pool|] == c;
    if Names(pool, identity) {
      var i :| 0 <= i < |pool| && Identity(pool[i].id) == identity;
      assert more[i] == pool[i];
    }
  }

  lemma {:induction false} NormalizedIsClean(items: seq<Credential>)
    ensures Clean(Normalized(items))
  {
    if items != [] {
      NormalizedIsClean(items[..|items| - 1]);
    }
  }

  /** The i-th record has a name no earlier record has. */
  ghost predicate IsFirstOfItsName(items: seq<Credential>, i: nat)
    requires i < |items|
  {
    items[i].id != "" && !Names(items[..i], Identity(items[i].id))
  }

  lemma IdentityOfName(id: string)
    ensures |Identity(id)| == |id|
  {
  }

  lemma {:induction false} NamesOfNormalized(items: seq<Credential>, identity: string)
    requires identity != ""
    ensures Names(Normalized(items), identity) <==> Names(items, identity)
  {
    if items != [] {
      var init, last := items[..|items| - 1], items[|items| - 1];
      NamesOfNormalized(init, identity);
      NamesOneMore(Normalized(init), WithCount(last), identity);
      assert items == init + [last];
      NamesOneMore(init, last, identity);
      IdentityOfName(last.id);
    }
  }

  /** `c` is the first record of some name, its failure count made non-negative. */
  ghost predicate IsKept(items: seq<Credential>, c: Credential) {
    exists i :: 0 <= i < |items| && IsFirstOfItsName(items, i) && c == WithCount(items[i])
  }

  lemma KeptOneMore(init: seq<Credential>, last: Credential, c: Credential)
    ensures IsKept(init + [last], c) <==>
            IsKept(init, c) || (IsFirstOfItsName(init + [last], |init|) && c == WithCount(last))
  {
    var items := init + [last];
    forall i | 0 <= i < |init|
      ensures items[i] == init[i] && (IsFirstOfItsName(items, i) <==> IsFirstOfItsName(init, i))
    {
      assert items[..i] == init[..i];
    }
    if IsKept(init, c) {
      var i :| 0 <= i < |init| && IsFirstOfItsName(init, i) && c == WithCount(init[i]);
      assert IsFirstOfItsName(items, i);
    }
  }

  lemma FirstByNormalized(init: seq<Credential>, last: Credential)
    ensures IsFirstOfItsName(init + [last], |init|) <==> last.id != "" && !Names(Normalized(init), Identity(last.id))
  {
    assert (init + [last])[..|init|] == init;
    if last.id != "" {
      IdentityOfName(last.id);
      NamesOfNormalized(init, Identity(last.id));
    }
  }

  /** Normalization keeps exactly the first record of every name. */
  lemma {:induction false} NormalizedKeepsFirst(items: seq<Credential>, c: Credential)
    ensures c in Normalized(items) <==> IsKept(items, c)
  {
    if items != [] {
      var init, last := items[..|items| - 1], items[|items| - 1];
      NormalizedKeepsFirst(init, c);
      assert items == init + [last];
      KeptOneMore(init, last, c);
      FirstByNormalized(init, last);
    }
  }

  /** `kept` holds, in their order, the records at `places`, which are all first ones of their
      name; a negative failure count has become zero. */
  ghost predicate KeepsFirstInOrder(items: seq<Credential>, kept: seq<Credential>, places: seq<nat>) {
    && |places| == |kept|
    && (forall k :: 0 <= k < |places| ==>
          && places[k] < |items| && IsFirstOfItsName(items, places[k])
          && kept[k] == items[places[k]].(
               failureCount := if items[places[k]].failureCount < 0 then 0 else items[places[k]].failureCount))
    && (forall j, k :: 0 <= j < k < |places| ==> places[j] < places[k])
    && (forall i :: 0 <= i < |items| && IsFirstOfItsName(items, i) ==> i in places)
  }

  lemma SameFirsts(init: seq<Credential>, last: Credential, i: nat)
    requires i < |init|
    ensures (init + [last])[i] == init[i]
    ensures IsFirstOfItsName(init + [last], i) <==> IsFirstOfItsName(init, i)
  {
    assert (init + [last])[..i] == init[..i];
  }

  lemma KeptInOrder(init: seq<Credential>, last: Credential, kept: seq<Credential>, places: seq<nat>)
    requires KeepsFirstInOrder(init, kept, places)
    ensures if IsFirstOfItsName(init + [last], |init|)
            then KeepsFirstInOrder(init + [last], kept + [WithCount(last)], places + [|init|])
            else KeepsFirstInOrder(init + [last], kept, places)
  {
    forall i | 0 <= i < |init|
      ensures (init + [last])[i] == init[i] && (IsFirstOfItsName(init + [last], i) <==> IsFirstOfItsName(init, i))
    {
      SameFirsts(init, last, i);
    }
  }

  /** Normalization keeps the records in their order. */
  lemma {:induction false} NormalizedInOrder(items: seq<Credential>) returns (places: seq<nat>)
    ensures KeepsFirstInOrder(items, Normalized(items), places)
  {
    places := [];
    if items != [] {
      var init, last := items[..|items| - 1], items[|items| - 1];
      assert items == init + [last];
      places := NormalizedInOrder(init);
      FirstByNormalized(init, last);
      KeptInOrder(init, last, Normalized(init), places);
      if IsFirstOfItsName(items, |init|) {
        places := places + [|init|];
      }
    }
  }

  lemma {:induction false} CleanIsNormalized(pool: seq<Credential>)
    requires Clean(pool)
    ensures Normalized(pool) == pool
  {
    if pool != [] {
      var init := pool[..|pool| - 1];
      CleanIsNormalized(init);
      assert pool == init + [pool[|pool| - 1]];
    }
  }

  // ---------- selection ----------

  predicate IsCoolingDown(c: Credential, now: int) {
    c.cooldownUntil.Some? && c.cooldownUntil.value > now
  }

  predicate Selectable(c: Credential, now: int) {
    c.apiKey != "" && c.status != Disabled && c.status != Exhausted && !IsCoolingDown(c, now)
  }

  function LastUse(c: Credential): int {
    if c.lastUsedAt.Some? then c.lastUsedAt.value else NEVER_USED
  }

  /** Position `i` was used before position `j`, the earlier position winning a tie. */
  predicate UsedBefore(pool: seq<Credential>, i: nat, j: nat)
    requires i < |pool| && j < |pool|
  {
    LastUse(pool[i]) < LastUse(pool[j]) || (LastUse(pool[i]) == LastUse(pool[j]) && i < j)
  }

  /** `i` is the selectable credential that has waited longest. */
  predicate IsOldest(pool: seq<Credential>, now: int, i: nat) {
    && i < |pool|
    && Selectable(pool[i], now)
    && forall j :: 0 <= j < |pool| && Selectable(pool[j], now) && j != i ==> UsedBefore(pool, i, j)
  }

  ghost predicate AnySelectable(pool: seq<Credential>, now: int) {
    exists i :: 0 <= i < |pool| && Selectable(pool[i], now)
  }

  /** All uses were recorded after the first instant of year 1. */
  predicate UsedSinceYearOne(pool: seq<Credential>) {
    forall i :: 0 <= i < |pool| && pool[i].lastUsedAt.Some? ==> pool[i].lastUsedAt.value > -62_135_596_800_000_000
  }

  /** `i` is selectable, and every other selectable credential has been used since, or has
      waited as long and comes later in the pool. One that was never used has waited
      longest. */
  ghost predicate HasWaitedLongest(pool: seq<Credential>, now: int, i: nat) {
    && i < |pool| && Selectable(pool[i], now)
    && forall j :: 0 <= j < |pool| && Selectable(pool[j], now) && j != i ==>
         if pool[i].lastUsedAt.None? then pool[j].lastUsedAt.Some? || i < j
         else
           && pool[j].lastUsedAt.Some?
           && (pool[i].lastUsedAt.value < pool[j].lastUsedAt.value
               || (pool[i].lastUsedAt.value == pool[j].lastUsedAt.value && i < j))
  }

  lemma OldestHasWaitedLongest(pool: seq<Credential>, now: int, i: nat)
    requires UsedSinceYearOne(pool)
    ensures IsOldest(pool, now, i) <==> HasWaitedLongest(pool, now, i)
  {
    if IsOldest(pool, now, i) {
      forall j | 0 <= j < |pool| && Selectable(pool[j], now) && j != i
        ensures if pool[i].lastUsedAt.None? then pool[j].lastUsedAt.Some? || i < j
                else pool[j].lastUsedAt.Some?
      {
        assert UsedBefore(pool, i, j);
      }
    }
  }

  datatype Selection = Selection(credentialId: string, lastUsedAt: Option<int>, previousStatus: Option<Status>)

  /** The positions of the selectable credentials, in pool order. */
  method CollectCandidates(pool: seq<Credential>, now: int) returns (candidates: seq<nat>)
    ensures forall i :: i in candidates <==> 0 <= i < |pool| && Selectable(pool[i], now)
    ensures forall a, b :: 0 <= a < b < |candidates| ==> candidates[a] < candidates[b]
  {
    candidates := [];
    for i := 0 to |pool|
      invariant forall k :: k in candidates <==> 0 <= k < i && Selectable(pool[k], now)
      invariant forall a, b :: 0 <= a < b < |candidates| ==> candidates[a] < candidates[b]
    {
      if Selectable(pool[i], now) {
        assert forall a :: 0 <= a < |candidates| ==> candidates[a] in candidates;
        candidates := candidates + [i];
      }
    }
  }

  /** The position selection decides on: the front of the candidates sorted by last use. */
  method SelectIndex(pool: seq<Credential>, now: int) returns (picked: Option<nat>)
    ensures picked.None? <==> !AnySelectable(pool, now)
    ensures picked.Some? ==> IsOldest(pool, now, picked.value)
    ensures picked.Some? && UsedSinceYearOne(pool) ==> HasWaitedLongest(pool, now, picked.value)
  {
    var candidates := CollectCandidates(pool, now);
    if candidates == [] {
      return None;
    }
    var best := candidates[0];
    assert best in candidates;
    for k := 1 to |candidates|
      invariant best in candidates[..k]
      invariant forall a :: 0 <= a < k && candidates[a] != best ==>
        candidates[a] < |pool| && best < |pool| && UsedBefore(pool, best, candidates[a])
    {
      assert candidates[k] in candidates && best in candidates;
      if LastUse(pool[candidates[k]]) < LastUse(pool[best]) {
        best := candidates[k];
      }
    }
    assert candidates[..|candidates|] == candidates;
    if UsedSinceYearOne(pool) {
      OldestHasWaitedLongest(pool, now, best);
    }
    return Some(best);
  }

  lemma OldestIsUnique(pool: seq<Credential>, now: int, i: nat, j: nat)
    requires IsOldest(pool, now, i) && IsOldest(pool, now, j)
    ensures i == j
  {
  }

  /** The key and the description are the credential's; only a status worth reporting, one
      other than active, is described. */
  predicate Describes(c: Credential, key: string, selected: Selection) {
    && key == c.apiKey && selected.credentialId == c.id && selected.lastUsedAt == c.lastUsedAt
    && (c.status == Active ==> selected.previousStatus.None?)
    && (c.status != Active ==> selected.previousStatus == Some(c.status))
  }

  // ---------- update ----------

  /** A credential after a call finished at `now`. */
  function AfterCall(c: Credential, success: bool, now: int): Credential {
    if success then
      c.(status := Active, cooldownUntil := None, failureCount := 0, lastUsedAt := Some(WholeSecond(now)))
    else
      var count := c.failureCount + 1;
      if count >= EXHAUSTED_FAILURE_COUNT then
        c.(status := Exhausted, cooldownUntil := None, failureCount := count, lastUsedAt := Some(WholeSecond(now)))
      else
        c.(status := CoolingDown,
           cooldownUntil := Some(WholeSecond(now + CooldownSeconds(count) * SECOND)),
           failureCount := count,
           lastUsedAt := Some(WholeSecond(now)))
  }

  /** What a call changes: the last use in any case; a success clears the record, the fifth
      failure in a row retires the credential, and one before makes it cool down for as
      many minutes as it has failed. */
  lemma CallChanges(c: Credential, success: bool, now: int)
    requires c.failureCount >= 0
    ensures var after := AfterCall(c, success, now);
            && after.id == c.id && after.apiKey == c.apiKey
            && after.lastUsedAt.Some? && now - 1_000_000 < after.lastUsedAt.value <= now
            && after.lastUsedAt.value % 1_000_000 == 0
            && (success ==> after.status == Active && after.failureCount == 0 && after.cooldownUntil == None)
            && (!success ==> after.failureCount == c.failureCount + 1)
            && (!success && c.failureCount >= 4 ==> after.status == Exhausted && after.cooldownUntil == None)
            && (!success && c.failureCount < 4 ==>
                  && after.status == CoolingDown
                  && after.cooldownUntil == Some(after.lastUsedAt.value + after.failureCount * 60_000_000))
  {
    if !success && c.failureCount < 4 {
      var seconds := CooldownSeconds(c.failureCount + 1);
      assert seconds == 60 * (c.failureCount + 1);
      assert (now + seconds * SECOND) % SECOND == now % SECOND;
    }
  }

  /** The pool after a call with the credential `id`: its record, and no other, is
      replaced; without such a record the stored pool stays as it was. */
  ghost predicate IsUpdate(pool: seq<Credential>, id: string, success: bool, now: int, after: seq<Credential>) {
    var clean := Normalized(pool);
    if id == "" || !Names(clean, Identity(id)) then after == pool
    else
      exists i :: IsUpdateAt(pool, id, success, now, after, i)
  }

  ghost predicate IsUpdateAt(pool: seq<Credential>, id: string, success: bool, now: int, after: seq<Credential>,
                             i: nat)
  {
    var clean := Normalized(pool);
    && i < |clean| && Identity(clean[i].id) == Identity(id)
    && after == if AfterCall(clean[i], success, now) == clean[i] then pool
                else clean[i := AfterCall(clean[i], success, now)]
  }

  datatype Event = Event(credentialId: string, success: bool, previous: Credential, next: Credential)

  /** One provider's settings. */
  class ProviderConfig {
    const apiKey: string
    var credentialPool: seq<Credential>

    constructor (apiKey: string, pool: seq<Credential>)
      ensures this.apiKey == apiKey && credentialPool == pool
    {
      this.apiKey := apiKey;
      credentialPool := pool;
    }

    /** Picks the key to call with: that of the selectable credential that has waited
        longest, or the provider's own key if there is none. */
    method SelectCredential(now: int) returns (key: string, selected: Option<Selection>)
      ensures selected.None? <==> !AnySelectable(Normalized(credentialPool), now)
      ensures selected.None? ==> key == apiKey
      ensures selected.Some? ==>
        exists i: nat :: IsOldest(Normalized(credentialPool), now, i)
          && (UsedSinceYearOne(Normalized(credentialPool)) ==> HasWaitedLongest(Normalized(credentialPool), now, i))
          && Describes(Normalized(credentialPool)[i], key, selected.value)
    {
      var pool := Normalize(credentialPool);
      var picked := SelectIndex(pool, now);
      match picked
      case None => return apiKey, None;
      case Some(i) =>
        var c := pool[i];
        return c.apiKey, Some(Selection(c.id, c.lastUsedAt, if c.status == Active then None else Some(c.status)));
    }

    /** Records the outcome of a call; reports an event exactly when a record changed. */
    method UpdateAfterCall(credentialId: string, success: bool, now: int) returns (event: Option<Event>)
      modifies this
      ensures IsUpdate(old(credentialPool), credentialId, success, now, credentialPool)
      ensures event.None? ==> credentialPool == old(credentialPool)
      ensures event.Some? ==>
        && event.value.credentialId == credentialId && event.value.success == success
        && event.value.previous in Normalized(old(credentialPool))
        && Identity(event.value.previous.id) == Identity(credentialId)
        && event.value.next == AfterCall(event.value.previous, success, now)
        && event.value.next != event.value.previous
    {
      if credentialId == "" {
        return None;
      }
      var pool := Normalize(credentialPool);
      for i := 0 to |pool|
        invariant credentialPool == old(credentialPool)
        invariant forall k :: 0 <= k < i ==> Identity(pool[k].id) != Identity(credentialId)
      {
        if Identity(pool[i].id) == Identity(credentialId) {
          var next := AfterCall(pool[i], success, now);
          assert Names(pool, Identity(credentialId));
          if next == pool[i] {
            assert IsUpdateAt(old(credentialPool), credentialId, success, now, credentialPool, i);
            return None;
          }
          credentialPool := pool[i := next];
          assert IsUpdateAt(old(credentialPool), credentialId, success, now, credentialPool, i);
          return Some(Event(credentialId, success, pool[i], next));
        }
      }
      return None;
    }
  }
}
