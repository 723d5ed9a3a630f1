/** The migration that numbers the messages stored before messages had a client order. */
module MessageOrder {
  import opened Basics
  import opened TextOrder

  datatype Message = Message(session: string, createdAt: string, clientOrder: Option<real>)

  /** SQLite's `rowid`. */
  datatype RowId = RowId(number: int)

  /** The message table, by row id. */
  type Rows = map<RowId, Message>

  // ---------- the listing order of a session ----------

  /** By creation time, messages of one time in the order they were added. */
  predicate CreatedBefore(rows: Rows, a: RowId, b: RowId)
    requires a in rows && b in rows
  {
    Less(rows[a].createdAt, rows[b].createdAt) || (rows[a].createdAt == rows[b].createdAt && a.number < b.number)
  }

  /** Messages with a client order come first, sorted by it; those that agree on it, and
      those without one, are sorted by their creation. */
  predicate ListedBefore(rows: Rows, a: RowId, b: RowId)
    requires a in rows && b in rows
  {
    match (rows[a].clientOrder, rows[b].clientOrder)
    case (Some(x), Some(y)) => x < y || (x == y && CreatedBefore(rows, a, b))
    case (Some(_), None) => true
    case (None, Some(_)) => false
    case (None, None) => CreatedBefore(rows, a, b)
  }

  /** `ids` is what listing the messages of `session` returns. */
  ghost predicate IsListing(rows: Rows, session: string, ids: seq<RowId>) {
    && (forall id :: id in ids <==> id in rows && rows[id].session == session)
    && (forall p, q :: 0 <= p < q < |ids| ==> ids[p] in rows && ids[q] in rows && ListedBefore(rows, ids[p], ids[q]))
  }

  // ---------- the rows to be numbered ----------

  /** Session by session, and within a session by creation. */
  predicate NumberedBefore(rows: Rows, a: RowId, b: RowId)
    requires a in rows && b in rows
  {
    Less(rows[a].session, rows[b].session) || (rows[a].session == rows[b].session && CreatedBefore(rows, a, b))
  }

  /** `ids` are the rows without a client order, in the order they are numbered. */
  ghost predicate IsPending(rows: Rows, ids: seq<RowId>) {
    && (forall id :: id in ids <==> id in rows && rows[id].clientOrder.None?)
    && (forall p, q :: 0 <= p < q < |ids| ==> ids[p] in rows && ids[q] in rows && NumberedBefore(rows, ids[p], ids[q]))
  }

  lemma NumberedIsTotal(rows: Rows, a: RowId, b: RowId)
    requires a in rows && b in rows && a != b
    ensures NumberedBefore(rows, a, b) || NumberedBefore(rows, b, a)
  {
    LessIsTotal(rows[a].session, rows[b].session);
    LessIsTotal(rows[a].createdAt, rows[b].createdAt);
  }

  lemma NumberedIsTransitive(rows: Rows, a: RowId, b: RowId, c: RowId)
    requires a in rows && b in rows && c in rows
    requires NumberedBefore(rows, a, b) && NumberedBefore(rows, b, c)
    ensures NumberedBefore(rows, a, c)
  {
    if Less(rows[a].session, rows[b].session) && Less(rows[b].session, rows[c].session) {
      LessIsTransitive(rows[a].session, rows[b].session, rows[c].session);
    }
    if Less(rows[a].createdAt, rows[b].createdAt) && Less(rows[b].createdAt, rows[c].createdAt) {
      LessIsTransitive(rows[a].createdAt, rows[b].createdAt, rows[c].createdAt);
    }
  }

  /** The first of a set of rows. */
  method FirstOf(rows: Rows, ids: set<RowId>) returns (first: RowId)
    requires ids != {} && forall id :: id in ids ==> id in rows
    ensures first in ids && forall id :: id in ids && id != first ==> NumberedBefore(rows, first, id)
  {
    first :| first in ids;
    var rest := ids - {first};
    while rest != {}
      invariant rest <= ids && first in ids - rest
      invariant forall id :: id in ids - rest && id != first ==> NumberedBefore(rows, first, id)
      decreases |rest|
    {
      var id :| id in rest;
      rest := rest - {id};
      NumberedIsTotal(rows, first, id);
      if !NumberedBefore(rows, first, id) {
        forall other | other in ids - rest && other != id ensures NumberedBefore(rows, id, other) {
          if other != first {
            NumberedIsTransitive(rows, id, first, other);
          }
        }
        first := id;
      }
    }
  }

  /** The query for the rows to number. */
  method SelectPending(rows: Rows) returns (pending: seq<RowId>)
    ensures IsPending(rows, pending) && AllIn(rows, pending)
  {
    pending := [];
    var rest := set id | id in rows && rows[id].clientOrder.None?;
    while rest != {}
      invariant forall id :: id in pending || id in rest <==> id in rows && rows[id].clientOrder.None?
      invariant forall p, q :: 0 <= p < q < |pending| ==>
        pending[p] in rows && pending[q] in rows && NumberedBefore(rows, pending[p], pending[q])
      invariant forall id :: id in rest ==> id in rows
      invariant forall p, id :: 0 <= p < |pending| && id in rest ==>
        pending[p] in rows && NumberedBefore(rows, pending[p], id)
      decreases |rest|
    {
      var first := FirstOf(rows, rest);
      pending := pending + [first];
      rest := rest - {first};
    }
    forall k | 0 <= k < |pending| ensures pending[k] in rows {
      assert pending[k] in pending;
    }
  }

  // ---------- the numbers given ----------

  /** `m` is the largest client order of the session. */
  ghost predicate IsMax(rows: Rows, session: string, m: real) {
    && (exists id :: id in rows && rows[id].session == session && rows[id].clientOrder == Some(m))
    && (forall id :: id in rows && rows[id].session == session && rows[id].clientOrder.Some? ==>
          rows[id].clientOrder.value <= m)
  }

  /** The query for a session's largest client order. */
  method MaxClientOrder(rows: Rows, session: string) returns (max: Option<real>)
    ensures max.None? ==> forall id :: id in rows && rows[id].session == session ==> rows[id].clientOrder.None?
    ensures max.Some? ==> IsMax(rows, session, max.value)
  {
    max := None;
    var rest := rows.Keys;
    while rest != {}
      invariant forall id :: id in rest ==> id in rows
      invariant max.None? ==>
        forall id :: id in rows && id !in rest && rows[id].session == session ==> rows[id].clientOrder.None?
      invariant max.Some? ==> exists id :: id in rows && rows[id].session == session && rows[id].clientOrder == max
      invariant max.Some? ==> forall id ::
        id in rows && id !in rest && rows[id].session == session && rows[id].clientOrder.Some? ==>
        rows[id].clientOrder.value <= max.value
      decreases |rest|
    {
      var id :| id in rest;
      rest := rest - {id};
      if rows[id].session == session && rows[id].clientOrder.Some?
         && (max.None? || max.value < rows[id].clientOrder.value)
      {
        max := rows[id].clientOrder;
      }
    }
  }

  /** The first number that is free in the session. */
  ghost function NextFree(rows: Rows, session: string): real {
    if exists m :: IsMax(rows, session, m) then
      var m :| IsMax(rows, session, m); m + 1.0
    else 0.0
  }

  lemma NextFreeIsExact(rows: Rows, session: string, m: real)
    requires IsMax(rows, session, m)
    ensures NextFree(rows, session) == m + 1.0
  {
  }

  lemma NoMaxWithoutOrders(rows: Rows, session: string)
    requires forall id :: id in rows && rows[id].session == session ==> rows[id].clientOrder.None?
    ensures NextFree(rows, session) == 0.0
  {
  }

  /** One more than the largest client order in use, or zero. */
  method FirstNumber(rows: Rows, session: string) returns (number: real)
    ensures number == NextFree(rows, session)
  {
    var max := MaxClientOrder(rows, session);
    if max.Some? {
      NextFreeIsExact(rows, session, max.value);
    } else {
      NoMaxWithoutOrders(rows, session);
    }
    return (if max.Some? then max.value else -1.0) + 1.0;
  }

  ghost predicate AllIn(rows: Rows, ids: seq<RowId>) {
    forall k {:trigger ids[k]} :: 0 <= k < |ids| ==> ids[k] in rows
  }

  /** How many of the first `k` pending rows belong to the session. */
  ghost function CountOf(rows: Rows, pending: seq<RowId>, k: nat, session: string): nat
    requires k <= |pending| && AllIn(rows, pending)
  {
    if k == 0 then 0
    else CountOf(rows, pending, k - 1, session) + if rows[pending[k - 1]].session == session then 1 else 0
  }

  /** The number the k-th pending row is given. */
  ghost function OrderGiven(rows: Rows, pending: seq<RowId>, k: nat): real
    requires k < |pending| && AllIn(rows, pending)
  {
    var session := rows[pending[k]].session;
    NextFree(rows, session) + CountOf(rows, pending, k, session) as real
  }

  /** The table after the first `k` pending rows have been numbered. */
  ghost function Numbered(before: Rows, pending: seq<RowId>, k: nat): (after: Rows)
    requires k <= |pending| && AllIn(before, pending)
    ensures after.Keys == before.Keys
  {
    if k == 0 then before
    else Numbered(before, pending, k - 1)[pending[k - 1] :=
      before[pending[k - 1]].(clientOrder := Some(OrderGiven(before, pending, k - 1)))]
  }

  /** `next` holds, for the sessions met so far, the number their next message is given. */
  ghost predicate Tracks(before: Rows, pending: seq<RowId>, k: nat, next: map<string, real>)
    requires k <= |pending| && AllIn(before, pending)
  {
    && (forall s :: s in next ==> next[s] == NextFree(before, s) + CountOf(before, pending, k, s) as real)
    && (forall s :: s !in next ==> CountOf(before, pending, k, s) == 0)
  }

  /** Takes the session's next number, looking the first one up in the table. */
  method TakeNumber(rows: Rows, session: string, next: map<string, real>,
                    ghost before: Rows, ghost pending: seq<RowId>, ghost k: nat)
    returns (number: real, after: map<string, real>)
    requires IsPending(before, pending) && AllIn(before, pending) && k < |pending|
    requires rows == Numbered(before, pending, k) && Tracks(before, pending, k, next)
    requires session == before[pending[k]].session
    ensures number == OrderGiven(before, pending, k)
    ensures Tracks(before, pending, k + 1, after)
  {
    after := next;
    if session !in next {
      number := FirstNumber(rows, session);
      TrackSession(before, pending, k, next, session);
      after := next[session := number];
    }
    number := after[session];
    TrackNumber(before, pending, k, after);
    after := after[session := number + 1.0];
  }

  /** The messages of the session without a client order that were created before `id`, or at
      the same time but added before. */
  ghost function PendingBefore(rows: Rows, id: RowId): set<RowId>
    requires id in rows
  {
    set other | && other in rows && rows[other].clientOrder.None? && rows[other].session == rows[id].session
                && (Less(rows[other].createdAt, rows[id].createdAt)
                    || (rows[other].createdAt == rows[id].createdAt && other.number < id.number))
  }

  /** One more than the largest client order of the session, or zero if it has none. */
  ghost predicate IsFirstFree(rows: Rows, session: string, first: real) {
    if exists id :: id in rows && rows[id].session == session && rows[id].clientOrder.Some? then
      IsMax(rows, session, first - 1.0)
    else
      first == 0.0
  }

  /** The number is the session's first free one, plus one for each pending message of the
      session that comes before `id`. */
  ghost predicate IsRank(before: Rows, id: RowId, number: Option<real>)
    requires id in before
  {
    exists first ::
      IsFirstFree(before, before[id].session, first) && number == Some(first + |PendingBefore(before, id)| as real)
  }

  class MessageTable {
    var rows: Rows

    constructor (rows: Rows)
      ensures this.rows == rows
    {
      this.rows := rows;
    }

    /** Numbers the k-th pending row. */
    method AssignNext(pending: seq<RowId>, k: nat, next: map<string, real>, ghost before: Rows)
      returns (after: map<string, real>)
      requires IsPending(before, pending) && AllIn(before, pending) && k < |pending|
      requires rows == Numbered(before, pending, k) && Tracks(before, pending, k, next)
      modifies this
      ensures rows == Numbered(before, pending, k + 1) && Tracks(before, pending, k + 1, after)
    {
      NotYetNumbered(before, pending, k);
      var message := rows[pending[k]];
      var clientOrder;
      clientOrder, after := TakeNumber(rows, message.session, next, before, pending, k);
      rows := rows[pending[k] := message.(clientOrder := Some(clientOrder))];
    }

    /** Numbers the pending rows session by session, after the numbers in use. */
    method AssignOrders(pending: seq<RowId>)
      requires IsPending(rows, pending) && AllIn(rows, pending)
      modifies this
      ensures rows == Numbered(old(rows), pending, |pending|)
    {
      ghost var before := rows;
      var nextOrder: map<string, real> := map[];
      for k := 0 to |pending|
        invariant rows == Numbered(before, pending, k)
        invariant Tracks(before, pending, k, nextOrder)
      {
        nextOrder := AssignNext(pending, k, nextOrder, before);
      }
    }

    /** Gives every message without a client order one, and changes no listing. */
    method BackfillClientOrder()
      modifies this
      ensures rows.Keys == old(rows).Keys
      ensures forall id :: id in rows ==>
        && rows[id].clientOrder.Some?
        && rows[id].session == old(rows)[id].session && rows[id].createdAt == old(rows)[id].createdAt
        && (old(rows)[id].clientOrder.Some? ==> rows[id] == old(rows)[id])
      ensures exists pending :: IsPending(old(rows), pending) && AllIn(old(rows), pending)
                                && rows == Numbered(old(rows), pending, |pending|)
      ensures forall id :: id in rows && old(rows)[id].clientOrder.None? ==>
        IsRank(old(rows), id, rows[id].clientOrder)
      ensures forall session, ids :: IsListing(rows, session, ids) <==> IsListing(old(rows), session, ids)
    {
      ghost var before := rows;
      var pending := SelectPending(rows);
      AssignOrders(pending);
      forall id | id in before ensures
        rows[id] == before[id].(clientOrder := rows[id].clientOrder) && rows[id].clientOrder.Some?
        && (before[id].clientOrder.Some? ==> rows[id] == before[id])
      {
        SameBesidesOrder(before, pending, id);
      }
      forall id | id in rows && before[id].clientOrder.None?
        ensures IsRank(before, id, rows[id].clientOrder)
      {
        NumberIsRank(before, pending, id);
      }
      forall session, ids ensures IsListing(rows, session, ids) <==> IsListing(before, session, ids) {
        BackfillKeepsListing(before, pending, session, ids);
      }
    }
  }

  lemma {:induction false} Unnumbered(before: Rows, pending: seq<RowId>, k: nat, id: RowId)
    requires k <= |pending| && AllIn(before, pending) && id in before && forall p :: 0 <= p < k ==> pending[p] != id
    ensures Numbered(before, pending, k)[id] == before[id]
  {
    if k > 0 {
      Unnumbered(before, pending, k - 1, id);
    }
  }

  lemma {:induction false} NumberOf(before: Rows, pending: seq<RowId>, k: nat, p: nat)
    requires IsPending(before, pending) && AllIn(before, pending) && p < k <= |pending|
    ensures Numbered(before, pending, k)[pending[p]] ==
            before[pending[p]].(clientOrder := Some(OrderGiven(before, pending, p)))
    decreases k
  {
    if p < k - 1 {
      NumberOf(before, pending, k - 1, p);
      NumberedIsStrict(before, pending[p], pending[k - 1]);
    }
  }

  lemma NotYetNumbered(before: Rows, pending: seq<RowId>, k: nat)
    requires IsPending(before, pending) && AllIn(before, pending) && k < |pending|
    ensures Numbered(before, pending, k)[pending[k]] == before[pending[k]]
  {
    forall p | 0 <= p < k ensures pending[p] != pending[k] {
      NumberedIsStrict(before, pending[p], pending[k]);
    }
    Unnumbered(before, pending, k, pending[k]);
  }

  lemma NumberedIsStrict(rows: Rows, a: RowId, b: RowId)
    requires a in rows && b in rows && NumberedBefore(rows, a, b)
    ensures a != b && !NumberedBefore(rows, b, a)
  {
    if Less(rows[a].session, rows[b].session) {
      LessIsStrict(rows[a].session, rows[b].session);
    } else {
      if Less(rows[a].createdAt, rows[b].createdAt) {
        LessIsStrict(rows[a].createdAt, rows[b].createdAt);
      }
      NotLessItself(rows[a].session);
    }
    NotLessItself(rows[a].createdAt);
  }

  lemma NotLessItself(s: string)
    ensures !Less(s, s)
  {
    if Less(s, s) {
      LessIsStrict(s, s);
    }
  }

  /** The pending rows of the session among the first `k`. */
  ghost function CountedRows(rows: Rows, pending: seq<RowId>, k: nat, session: string): set<RowId>
    requires k <= |pending| && AllIn(rows, pending)
  {
    if k == 0 then {}
    else
      CountedRows(rows, pending, k - 1, session)
      + if rows[pending[k - 1]].session == session then {pending[k - 1]} else {}
  }

  lemma {:induction false} CountedRowsMembers(rows: Rows, pending: seq<RowId>, k: nat, session: string, id: RowId)
    requires AllIn(rows, pending) && k <= |pending|
    ensures id in CountedRows(rows, pending, k, session) <==>
            id in pending[..k] && id in rows && rows[id].session == session
  {
    if k > 0 {
      CountedRowsMembers(rows, pending, k - 1, session, id);
      assert pending[..k] == pending[..k - 1] + [pending[k - 1]];
    }
  }

  lemma {:induction false} CountedRowsSize(rows: Rows, pending: seq<RowId>, k: nat, session: string)
    requires AllIn(rows, pending) && k <= |pending|
    requires forall p, q :: 0 <= p < q < |pending| ==> pending[p] != pending[q]
    ensures |CountedRows(rows, pending, k, session)| == CountOf(rows, pending, k, session)
  {
    if k > 0 {
      CountedRowsSize(rows, pending, k - 1, session);
      CountedRowsMembers(rows, pending, k - 1, session, pending[k - 1]);
      NotAmongEarlier(pending, k - 1);
      OneMore(CountedRows(rows, pending, k - 1, session), pending[k - 1]);
    }
  }

  lemma OneMore<T>(s: set<T>, x: T)
    requires x !in s
    ensures |s + {x}| == |s| + 1 && s + {} == s
  {
  }

  lemma NotAmongEarlier(pending: seq<RowId>, k: nat)
    requires k < |pending| && forall p, q :: 0 <= p < q < |pending| ==> pending[p] != pending[q]
    ensures pending[k] !in pending[..k]
  {
  }

  /** What is counted before a pending row are the pending rows of its session that were
      created before it. */
  lemma CountedAreBefore(rows: Rows, pending: seq<RowId>, k: nat)
    requires IsPending(rows, pending) && AllIn(rows, pending) && k < |pending|
    ensures CountedRows(rows, pending, k, rows[pending[k]].session) == PendingBefore(rows, pending[k])
  {
    forall other
      ensures other in CountedRows(rows, pending, k, rows[pending[k]].session) <==>
              other in PendingBefore(rows, pending[k])
    {
      CountedIsBefore(rows, pending, k, other);
    }
  }

  lemma CountedIsBefore(rows: Rows, pending: seq<RowId>, k: nat, other: RowId)
    requires IsPending(rows, pending) && AllIn(rows, pending) && k < |pending|
    ensures other in CountedRows(rows, pending, k, rows[pending[k]].session) <==>
            other in PendingBefore(rows, pending[k])
  {
    var id := pending[k];
    CountedRowsMembers(rows, pending, k, rows[id].session, other);
    NotLessItself(rows[id].session);
    NotLessItself(rows[id].createdAt);
    if other in pending[..k] {
      var p :| 0 <= p < k && pending[p] == other;
      assert other in pending && NumberedBefore(rows, other, id);
    } else if other in PendingBefore(rows, id) {
      assert other in pending;
      var p :| 0 <= p < |pending| && pending[p] == other;
      if p > k {
        NumberedIsStrict(rows, id, other);
      }
    }
  }

  lemma NextFreeIsFirst(rows: Rows, session: string)
    ensures IsFirstFree(rows, session, NextFree(rows, session))
  {
    var max := LargestOrder(rows, session, rows.Keys);
    if max.Some? {
      NextFreeIsExact(rows, session, max.value);
    } else {
      NoMaxWithoutOrders(rows, session);
    }
  }

  /** A session with client orders has a largest one. */
  lemma {:induction false} LargestOrder(rows: Rows, session: string, ids: set<RowId>) returns (max: Option<real>)
    requires ids <= rows.Keys
    ensures max.None? ==> forall id :: id in ids && rows[id].session == session ==> rows[id].clientOrder.None?
    ensures max.Some? ==>
      && (exists id :: id in ids && rows[id].session == session && rows[id].clientOrder == max)
      && (forall id :: id in ids && rows[id].session == session && rows[id].clientOrder.Some? ==>
            rows[id].clientOrder.value <= max.value)
    decreases |ids|
  {
    max := None;
    if ids != {} {
      var id :| id in ids;
      max := LargestOrder(rows, session, ids - {id});
      if rows[id].session == session && rows[id].clientOrder.Some?
         && (max.None? || max.value < rows[id].clientOrder.value)
      {
        max := rows[id].clientOrder;
      }
    }
  }

  /** The number a pending message is given: the session's first free one, plus one for each
      pending message of the session created before it. */
  lemma NumberIsRank(before: Rows, pending: seq<RowId>, id: RowId)
    requires IsPending(before, pending) && AllIn(before, pending) && id in before && before[id].clientOrder.None?
    ensures IsRank(before, id, Numbered(before, pending, |pending|)[id].clientOrder)
  {
    assert id in pending;
    var p :| 0 <= p < |pending| && pending[p] == id;
    NumberOf(before, pending, |pending|, p);
    OrderGivenIsRank(before, pending, p);
  }

  lemma CountIsRank(before: Rows, pending: seq<RowId>, p: nat)
    requires IsPending(before, pending) && AllIn(before, pending) && p < |pending|
    ensures CountOf(before, pending, p, before[pending[p]].session) == |PendingBefore(before, pending[p])|
  {
    forall i, j | 0 <= i < j < |pending| ensures pending[i] != pending[j] {
      NumberedIsStrict(before, pending[i], pending[j]);
    }
    CountedRowsSize(before, pending, p, before[pending[p]].session);
    CountedAreBefore(before, pending, p);
  }

  lemma OrderGivenIsRank(before: Rows, pending: seq<RowId>, p: nat)
    requires IsPending(before, pending) && AllIn(before, pending) && p < |pending|
    ensures IsRank(before, pending[p], Some(OrderGiven(before, pending, p)))
  {
    var session := before[pending[p]].session;
    CountIsRank(before, pending, p);
    NextFreeIsFirst(before, session);
    assert IsFirstFree(before, session, NextFree(before, session));
  }

  lemma {:induction false} CountedNone(rows: Rows, pending: seq<RowId>, k: nat, session: string, p: nat)
    requires k <= |pending| && AllIn(rows, pending)
    requires CountOf(rows, pending, k, session) == 0 && p < k
    ensures rows[pending[p]].session != session
  {
    if p < k - 1 {
      CountedNone(rows, pending, k - 1, session, p);
    }
  }

  lemma SameNextFree(x: Rows, y: Rows, session: string)
    requires x.Keys == y.Keys
    requires forall id :: id in x && (x[id].session == session || y[id].session == session) ==> x[id] == y[id]
    ensures NextFree(x, session) == NextFree(y, session)
  {
    assert forall m :: IsMax(x, session, m) <==> IsMax(y, session, m);
    if m :| IsMax(x, session, m) {
      NextFreeIsExact(x, session, m);
      NextFreeIsExact(y, session, m);
    }
  }

  /** A session none of whose rows has been numbered yet still has its old numbers. */
  lemma UntouchedSession(before: Rows, pending: seq<RowId>, k: nat, session: string)
    requires IsPending(before, pending) && AllIn(before, pending) && k <= |pending|
    requires CountOf(before, pending, k, session) == 0
    ensures NextFree(Numbered(before, pending, k), session) == NextFree(before, session)
  {
    var rows := Numbered(before, pending, k);
    forall id | id in rows && (rows[id].session == session || before[id].session == session)
      ensures rows[id] == before[id]
    {
      if p :| 0 <= p < k && pending[p] == id {
        CountedNone(before, pending, k, session, p);
        NumberOf(before, pending, k, p);
      } else {
        Unnumbered(before, pending, k, id);
      }
    }
    SameNextFree(rows, before, session);
  }

  lemma TrackSession(before: Rows, pending: seq<RowId>, k: nat, next: map<string, real>, session: string)
    requires IsPending(before, pending) && AllIn(before, pending) && k <= |pending|
    requires Tracks(before, pending, k, next) && session !in next
    ensures Tracks(before, pending, k, next[session := NextFree(Numbered(before, pending, k), session)])
  {
    UntouchedSession(before, pending, k, session);
  }

  lemma TrackNumber(before: Rows, pending: seq<RowId>, k: nat, next: map<string, real>)
    requires AllIn(before, pending) && k < |pending|
    requires Tracks(before, pending, k, next) && before[pending[k]].session in next
    ensures var session := before[pending[k]].session;
            && next[session] == OrderGiven(before, pending, k)
            && Tracks(before, pending, k + 1, next[session := next[session] + 1.0])
  {
  }

  // ---------- listings are kept ----------

  lemma {:induction false} CountGrows(rows: Rows, pending: seq<RowId>, p: nat, q: nat)
    requires p < q <= |pending| && AllIn(rows, pending)
    ensures CountOf(rows, pending, p, rows[pending[p]].session) < CountOf(rows, pending, q, rows[pending[p]].session)
    decreases q
  {
    if p < q - 1 {
      CountGrows(rows, pending, p, q - 1);
    }
  }

  /** Numbers are given in listing order and above all numbers in use. */
  lemma NewOrderAgrees(before: Rows, pending: seq<RowId>, a: RowId, b: RowId)
    requires IsPending(before, pending) && AllIn(before, pending)
    requires a in before && b in before && before[a].session == before[b].session && ListedBefore(before, a, b)
    ensures ListedBefore(Numbered(before, pending, |pending|), a, b)
  {
    SameBesidesOrder(before, pending, a);
    SameBesidesOrder(before, pending, b);
    if b in pending {
      var q :| 0 <= q < |pending| && pending[q] == b;
      NumberOf(before, pending, |pending|, q);
      if a in pending {
        var p :| 0 <= p < |pending| && pending[p] == a;
        NumberOf(before, pending, |pending|, p);
        PendingInListingOrder(before, pending, p, q);
        CountGrows(before, pending, p, q);
      } else {
        AboveNumbersInUse(before, before[a].session, a);
      }
    }
  }

  lemma PendingInListingOrder(before: Rows, pending: seq<RowId>, p: nat, q: nat)
    requires IsPending(before, pending) && p < |pending| && q < |pending|
    requires pending[p] in before && pending[q] in before
    requires before[pending[p]].session == before[pending[q]].session && CreatedBefore(before, pending[p], pending[q])
    ensures p < q
  {
    var a, b := pending[p], pending[q];
    assert NumberedBefore(before, a, b);
    NumberedIsStrict(before, a, b);
  }

  lemma AboveNumbersInUse(rows: Rows, session: string, id: RowId)
    requires id in rows && rows[id].session == session && rows[id].clientOrder.Some?
    ensures rows[id].clientOrder.value < NextFree(rows, session)
  {
    var m := MaxOf(rows, session, rows.Keys, id);
    NextFreeIsExact(rows, session, m);
  }

  lemma {:induction false} MaxOf(rows: Rows, session: string, ids: set<RowId>, id: RowId) returns (m: real)
    requires ids <= rows.Keys && id in ids && rows[id].session == session && rows[id].clientOrder.Some?
    ensures exists top :: top in ids && rows[top].session == session && rows[top].clientOrder == Some(m)
    ensures forall other :: other in ids && rows[other].session == session && rows[other].clientOrder.Some? ==>
      rows[other].clientOrder.value <= m
    decreases |ids|
  {
    var rest := ids - {id};
    if other :| other in rest && rows[other].session == session && rows[other].clientOrder.Some? {
      m := MaxOf(rows, session, rest, other);
      if m < rows[id].clientOrder.value {
        m := rows[id].clientOrder.value;
      }
    } else {
      m := rows[id].clientOrder.value;
    }
  }

  lemma ListedIsTotal(rows: Rows, a: RowId, b: RowId)
    requires a in rows && b in rows && a != b
    ensures ListedBefore(rows, a, b) || ListedBefore(rows, b, a)
  {
    LessIsTotal(rows[a].createdAt, rows[b].createdAt);
  }

  lemma ListedIsStrict(rows: Rows, a: RowId, b: RowId)
    requires a in rows && b in rows && ListedBefore(rows, a, b)
    ensures !ListedBefore(rows, b, a)
  {
    if Less(rows[a].createdAt, rows[b].createdAt) {
      LessIsStrict(rows[a].createdAt, rows[b].createdAt);
    } else if Less(rows[b].createdAt, rows[a].createdAt) {
      LessIsStrict(rows[b].createdAt, rows[a].createdAt);
    }
  }

  lemma NewOrderReflects(before: Rows, pending: seq<RowId>, a: RowId, b: RowId)
    requires IsPending(before, pending) && AllIn(before, pending)
    requires a in before && b in before && before[a].session == before[b].session
    requires ListedBefore(Numbered(before, pending, |pending|), a, b)
    ensures ListedBefore(before, a, b)
  {
    ListedIsStrict(Numbered(before, pending, |pending|), a, b);
    ListedIsTotal(before, a, b);
    if ListedBefore(before, b, a) {
      NewOrderAgrees(before, pending, b, a);
    }
  }

  /** Listings of `x` are listings of `y`. */
  lemma ListingFollows(x: Rows, y: Rows, session: string, ids: seq<RowId>)
    requires x.Keys == y.Keys && forall id :: id in x ==> x[id].session == y[id].session
    requires forall a, b {:trigger ListedBefore(y, a, b)} ::
               a in x && b in x && x[a].session == x[b].session && ListedBefore(x, a, b) ==> ListedBefore(y, a, b)
    requires IsListing(x, session, ids)
    ensures IsListing(y, session, ids)
  {
    forall p, q | 0 <= p < q < |ids| ensures ids[p] in y && ids[q] in y && ListedBefore(y, ids[p], ids[q]) {
      assert ids[p] in ids && ids[q] in ids;
    }
  }

  /** A session lists exactly the same messages in exactly the same sequence. */
  lemma BackfillKeepsListing(before: Rows, pending: seq<RowId>, session: string, ids: seq<RowId>)
    requires IsPending(before, pending) && AllIn(before, pending)
    ensures IsListing(Numbered(before, pending, |pending|), session, ids) <==> IsListing(before, session, ids)
  {
    var after := Numbered(before, pending, |pending|);
    forall id | id in before ensures after[id].session == before[id].session {
      SameBesidesOrder(before, pending, id);
    }
    if IsListing(before, session, ids) {
      forall a, b | a in before && b in before && before[a].session == before[b].session && ListedBefore(before, a, b)
        ensures ListedBefore(after, a, b)
      {
        NewOrderAgrees(before, pending, a, b);
      }
      ListingFollows(before, after, session, ids);
    } else if IsListing(after, session, ids) {
      forall a, b | a in after && b in after && after[a].session == after[b].session && ListedBefore(after, a, b)
        ensures ListedBefore(before, a, b)
      {
        NewOrderReflects(before, pending, a, b);
      }
      ListingFollows(after, before, session, ids);
    }
  }

  lemma SameBesidesOrder(before: Rows, pending: seq<RowId>, id: RowId)
    requires IsPending(before, pending) && AllIn(before, pending) && id in before
    ensures var after := Numbered(before, pending, |pending|);
            && after[id] == before[id].(clientOrder := after[id].clientOrder) && after[id].clientOrder.Some?
            && (before[id].clientOrder.Some? ==> after[id] == before[id])
  {
    if p :| 0 <= p < |pending| && pending[p] == id {
      assert pending[p] in pending;
      NumberOf(before, pending, |pending|, p);
    } else {
      assert id !in pending;
      Unnumbered(before, pending, |pending|, id);
    }
  }
}
