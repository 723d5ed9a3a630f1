/** Improvement candidates: the store's status updates, the service steps that drive them,
    and what must have happened before a candidate can be applied. */
module Candidates {
  import opened Basics

  datatype Status =
    | Proposed | Validating | Validated | NeedsChanges | WaitingForApproval | Approved | Rejected
    | Applied | Failed | Superseded

  datatype Command = Command(action: string, arguments: string)

  const APPLY_COMMAND_ACTIONS := {
    "buddy_identity.update", "user_context.update", "memory_document.update", "session_summary.update",
    "capability_usage_stats.update", "memory_entry.create", "memory_entry.update", "memory_entry.archive",
    "run_template_binding.update"}

  /** What a review proposes; an unknown status word is no status. */
  datatype Item = Item(status: Option<Status>, summary: string, applyCommand: Option<Command>)

  /** The approval request in a validation result may name the command to apply. */
  datatype ValidationResult = ValidationResult(applyCommand: Option<Command>, report: string)

  datatype DecisionRecord = DecisionRecord(approve: bool, reason: string, previousStatus: Status)

  datatype Candidate = Candidate(
    payload: Item,
    status: Status,
    statusReason: string,
    validationRunId: string,
    validationResult: Option<ValidationResult>,
    decision: Option<DecisionRecord>,
    appliedRevision: Option<string>)

  type Table = map<string, Candidate>

  datatype RunStatus = RunCompleted | RunFailed | RunCancelled | RunPending

  /** A validation run as far as it is stored. */
  datatype Run = Run(
    status: RunStatus,
    recommendedFor: string,            // empty when the run names no candidate
    recommendedStatus: Option<Status>,
    reason: string,
    result: ValidationResult)

  // ---------- one step ----------

  datatype Event =
    | Upsert(id: string, item: Item)
    | Link(id: string, runId: string)
    | Sync(id: string, runs: map<string, Run>)
    | Decide(id: string, approve: bool, reason: string)
    | Apply(id: string, commandId: string, revision: string)

  function Inserted(item: Item): Candidate {
    Candidate(item, if item.status.Some? then item.status.value else Proposed, "", "", None, None, None)
  }

  /** The status a run recommends for a candidate, if it has anything to say on it. */
  function StatusFromRun(run: Run, id: string): Option<Status> {
    if run.status.RunFailed? || run.status.RunCancelled? then Some(Failed)
    else if !run.status.RunCompleted? then None
    else if run.recommendedFor != "" && run.recommendedFor != id then None
    else if run.recommendedStatus in {Some(Validated), Some(NeedsChanges), Some(Rejected), Some(WaitingForApproval)}
    then run.recommendedStatus
    else None
  }

  /** The command an approved candidate is applied with. */
  function CommandOf(c: Candidate): Option<Command> {
    if c.validationResult.Some? && c.validationResult.value.applyCommand.Some? then
      c.validationResult.value.applyCommand
    else
      c.payload.applyCommand
  }

  predicate Supported(command: Option<Command>) {
    command.Some? && command.value.action in APPLY_COMMAND_ACTIONS
  }

  predicate CanApply(c: Candidate) {
    c.status == Approved && Supported(CommandOf(c))
  }

  predicate CanDecide(c: Candidate, approve: bool) {
    && (approve ==> c.status in {Validated, WaitingForApproval})
    && c.status !in {Applied, Superseded}
  }

  /** What a successful status write records. */
  datatype Write =
    | InsertedAs(status: Status)
    | LinkedTo(runId: string)
    | SyncedFrom(runId: string, completed: bool, status: Status)
    | Decided(approve: bool)
    | AppliedBy(revision: string)
  {
    function StatusWritten(): Status {
      match this
      case InsertedAs(s) => s
      case LinkedTo(_) => Validating
      case SyncedFrom(_, _, s) => s
      case Decided(approve) => if approve then Approved else Rejected
      case AppliedBy(_) => Applied
    }
  }

  /** The status write an event makes, or none when it fails or changes no status. */
  function WriteOf(t: Table, e: Event): Option<Write> {
    if e.id == "" then None
    else if e.id !in t then (if e.Upsert? then Some(InsertedAs(Inserted(e.item).status)) else None)
    else
      var c := t[e.id];
      match e
      case Upsert(_, _) => None
      case Link(_, runId) => if runId == "" then None else Some(LinkedTo(runId))
      case Sync(id, runs) =>
        if c.validationRunId == "" || c.validationRunId !in runs then None
        else
          var run := runs[c.validationRunId];
          var status := StatusFromRun(run, id);
          if status.None? then None else Some(SyncedFrom(c.validationRunId, run.status.RunCompleted?, status.value))
      case Decide(_, approve, _) => if CanDecide(c, approve) then Some(Decided(approve)) else None
      case Apply(_, _, revision) => if CanApply(c) && revision != "" then Some(AppliedBy(revision)) else None
  }

  function AppliedReason(commandId: string): string {
    "Applied by command " + commandId + "."
  }

  /** The candidate after the event that made the write `w`. */
  function Written(c: Candidate, e: Event, w: Write): Candidate
    requires WriteFits(c, e, w)
  {
    match w
    case InsertedAs(_) => c
    case LinkedTo(runId) => c.(status := Validating, validationRunId := runId)
    case SyncedFrom(runId, _, status) =>
      var run := e.runs[runId];
      c.(status := status, statusReason := if run.reason != "" then run.reason else c.statusReason,
         validationResult := Some(run.result))
    case Decided(approve) =>
      c.(status := if approve then Approved else Rejected, statusReason := e.reason,
         decision := Some(DecisionRecord(approve, e.reason, c.status)))
    case AppliedBy(revision) =>
      c.(status := Applied, statusReason := AppliedReason(e.commandId), appliedRevision := Some(revision))
  }

  predicate WriteFits(c: Candidate, e: Event, w: Write) {
    && (w.SyncedFrom? ==> e.Sync? && w.runId in e.runs)
    && (w.Decided? ==> e.Decide?)
    && (w.AppliedBy? ==> e.Apply?)
  }

  function Step(t: Table, e: Event): Table {
    if e.Upsert? && e.id != "" then
      t[e.id := if e.id in t then t[e.id].(payload := e.item) else Inserted(e.item)]
    else
      var w := WriteOf(t, e);
      if w.None? then t else t[e.id := Written(t[e.id], e, w.value)]
  }

  /** What the run has to say of the candidate: completed, it recommends the status for it
      or for no one in particular; failed or cancelled, it says so. */
  predicate Says(run: Run, id: string, status: Status) {
    || (&& run.status == RunCompleted && run.recommendedFor in {"", id} && run.recommendedStatus == Some(status)
        && status in {Validated, NeedsChanges, Rejected, WaitingForApproval})
    || (run.status in {RunFailed, RunCancelled} && status == Failed)
  }

  /** What the candidate's linked run has to say of it. */
  predicate SaysOfLinked(c: Candidate, id: string, runs: map<string, Run>, status: Status) {
    c.validationRunId != "" && c.validationRunId in runs && Says(runs[c.validationRunId], id, status)
  }

  /** A synchronization writes a status exactly when the linked run says so, and notes that
      run and whether it was completed. */
  lemma SyncWrites(t: Table, e: Event, runId: string, completed: bool, status: Status)
    ensures WriteOf(t, e) == Some(SyncedFrom(runId, completed, status)) <==>
            && e.Sync? && e.id != "" && e.id in t && runId == t[e.id].validationRunId
            && SaysOfLinked(t[e.id], e.id, e.runs, status) && (completed <==> e.runs[runId].status == RunCompleted)
  {
  }

  /** The command an approved candidate is applied with: the one its validation result names,
      otherwise the one its proposal names. */
  predicate IsApplyCommand(c: Candidate, command: Command) {
    || (c.validationResult.Some? && c.validationResult.value.applyCommand == Some(command))
    || ((c.validationResult.None? || c.validationResult.value.applyCommand.None?)
        && c.payload.applyCommand == Some(command))
  }

  // ---------- a review's proposals ----------

  datatype Review = Review(reviewId: string, reviewRunId: string)

  /** A proposal may name the candidate it is for. */
  datatype Proposal = Proposal(candidateId: string, item: Item)

  const DIGITS := "0123456789"

  function Decimal(n: nat): string {
    if n < 10 then [DIGITS[n]] else Decimal(n / 10) + [DIGITS[n % 10]]
  }

  /** The named id, or one made from the review and the proposal's number. */
  function CandidateId(review: Review, p: Proposal, index: nat): (id: string)
    ensures id != ""
  {
    if p.candidateId != "" then p.candidateId
    else (if review.reviewRunId != "" then review.reviewRunId else review.reviewId) + "_candidate_" + Decimal(index + 1)
  }

  /** The events of storing the proposals in turn. */
  function UpsertsOf(review: Review, proposals: seq<Proposal>): seq<Event> {
    if proposals == [] then []
    else
      var last := |proposals| - 1;
      UpsertsOf(review, proposals[..last])
      + [Upsert(CandidateId(review, proposals[last], last), proposals[last].item)]
  }

  function StepAll(t: Table, events: seq<Event>): Table {
    if events == [] then t else Step(StepAll(t, events[..|events| - 1]), events[|events| - 1])
  }

  /** The number a sequence of digits stands for. */
  function Value(digits: string): int {
    if digits == "" then 0
    else 10 * Value(digits[..|digits| - 1]) + (digits[|digits| - 1] as int - '0' as int)
  }

  lemma DigitValue(n: nat)
    requires n < 10
    ensures DIGITS[n] as int - '0' as int == n
  {
  }

  lemma {:induction false} DecimalHasValue(n: nat)
    ensures Value(Decimal(n)) == n
  {
    DigitValue(n % 10);
    if n < 10 {
      assert Value("") == 0 && [DIGITS[n]][..0] == "";
    } else {
      DecimalHasValue(n / 10);
      assert (Decimal(n / 10) + [DIGITS[n % 10]])[..|Decimal(n / 10)|] == Decimal(n / 10);
    }
  }

  /** What an unnamed proposal is called: after the review's run, or the review itself if it
      has none, and the number of the proposal, counted from one. */
  lemma GeneratedId(review: Review, p: Proposal, index: nat) returns (digits: string)
    requires p.candidateId == ""
    ensures review.reviewRunId != "" ==> CandidateId(review, p, index) == review.reviewRunId + "_candidate_" + digits
    ensures review.reviewRunId == "" ==> CandidateId(review, p, index) == review.reviewId + "_candidate_" + digits
    ensures Value(digits) == index + 1
  {
    digits := Decimal(index + 1);
    DecimalHasValue(index + 1);
  }

  /** Proposals of one review that name no candidate get different ids. */
  lemma UnnamedApart(review: Review, p: Proposal, i: nat, q: Proposal, j: nat)
    requires p.candidateId == "" && q.candidateId == "" && i != j
    ensures CandidateId(review, p, i) != CandidateId(review, q, j)
  {
    var stem := (if review.reviewRunId != "" then review.reviewRunId else review.reviewId) + "_candidate_";
    if CandidateId(review, p, i) == CandidateId(review, q, j) {
      assert (stem + Decimal(i + 1))[|stem|..] == Decimal(i + 1);
      assert (stem + Decimal(j + 1))[|stem|..] == Decimal(j + 1);
      DecimalHasValue(i + 1);
      DecimalHasValue(j + 1);
    }
  }

  class CandidateStore {
    var candidates: Table

    constructor ()
      ensures candidates == map[]
    {
      candidates := map[];
    }

    /** Inserts a proposal, or replaces the proposal of a known candidate. */
    method UpsertCandidate(id: string, item: Item)
      requires id != ""
      modifies this
      ensures candidates == Step(old(candidates), Upsert(id, item))
      ensures id in old(candidates) ==>
        candidates == old(candidates)[id := old(candidates)[id].(payload := item)]
      ensures id !in old(candidates) ==>
        candidates == old(candidates)[id :=
          Candidate(item, if item.status == None then Proposed else item.status.value, "", "", None, None, None)]
    {
      if id in candidates {
        candidates := candidates[id := candidates[id].(payload := item)];
      } else {
        candidates := candidates[id := Inserted(item)];
      }
    }

    /** Stores the proposals of a review, none for a review without id. */
    method UpsertCandidatesForReview(review: Review, proposals: seq<Proposal>)
      modifies this
      ensures candidates ==
              if review.reviewId == "" then old(candidates) else StepAll(old(candidates), UpsertsOf(review, proposals))
    {
      if review.reviewId == "" {
        return;
      }
      for index := 0 to |proposals|
        invariant candidates == StepAll(old(candidates), UpsertsOf(review, proposals[..index]))
      {
        assert proposals[..index + 1][..index] == proposals[..index];
        UpsertCandidate(CandidateId(review, proposals[index], index), proposals[index].item);
      }
      assert proposals[..|proposals|] == proposals;
    }

    method LinkRun(id: string, runId: string) returns (ok: bool)
      modifies this
      ensures candidates == Step(old(candidates), Link(id, runId))
      ensures ok <==> WriteOf(old(candidates), Link(id, runId)).Some?
      ensures ok <==> id != "" && runId != "" && id in old(candidates)
      ensures candidates ==
        if ok then old(candidates)[id := old(candidates)[id].(status := Validating, validationRunId := runId)]
        else old(candidates)
    {
      if id == "" || runId == "" || id !in candidates {
        return false;
      }
      candidates := candidates[id := candidates[id].(status := Validating, validationRunId := runId)];
      return true;
    }

    /** Takes over what the linked run recommends for the candidate, or that it failed. */
    method SyncValidationStatus(id: string, runs: map<string, Run>) returns (ok: bool)
      modifies this
      ensures candidates == Step(old(candidates), Sync(id, runs))
      ensures ok <==> id != "" && id in old(candidates)
      ensures forall status :: ok && SaysOfLinked(old(candidates)[id], id, runs, status) ==>
        var c, run := old(candidates)[id], runs[old(candidates)[id].validationRunId];
        candidates == old(candidates)[id :=
          c.(status := status, statusReason := if run.reason == "" then c.statusReason else run.reason,
             validationResult := Some(run.result))]
      ensures (!ok || forall status :: !SaysOfLinked(old(candidates)[id], id, runs, status)) ==>
        candidates == old(candidates)
    {
      if id == "" || id !in candidates {
        return false;
      }
      var c := candidates[id];
      if c.validationRunId == "" || c.validationRunId !in runs {
        return true;
      }
      var run := runs[c.validationRunId];
      var next := StatusFromRun(run, id);
      if next.None? {
        return true;
      }
      assert SaysOfLinked(c, id, runs, next.value);
      var reason := if run.reason != "" then run.reason else c.statusReason;
      candidates := candidates[id := c.(status := next.value, statusReason := reason,
                                        validationResult := Some(run.result))];
      return true;
    }

    /** Links the run and takes over what it already recommends. */
    method LinkValidationRun(id: string, runId: string, runs: map<string, Run>) returns (ok: bool)
      modifies this
      ensures candidates == if ok then Step(Step(old(candidates), Link(id, runId)), Sync(id, runs)) else old(candidates)
      ensures ok <==> WriteOf(old(candidates), Link(id, runId)).Some?
    {
      ok := LinkRun(id, runId);
      if ok {
        var synced := SyncValidationStatus(id, runs);
      }
    }

    method DecideCandidate(id: string, approve: bool, reason: string) returns (ok: bool)
      modifies this
      ensures candidates == Step(old(candidates), Decide(id, approve, reason))
      ensures ok <==> WriteOf(old(candidates), Decide(id, approve, reason)).Some?
      ensures ok <==>
        && id != "" && id in old(candidates) && old(candidates)[id].status !in {Applied, Superseded}
        && (approve ==> old(candidates)[id].status in {Validated, WaitingForApproval})
      ensures candidates ==
        if ok then old(candidates)[id := old(candidates)[id].(
                     status := if approve then Approved else Rejected, statusReason := reason,
                     decision := Some(DecisionRecord(approve, reason, old(candidates)[id].status)))]
        else old(candidates)
    {
      if id == "" || id !in candidates {
        return false;
      }
      var c := candidates[id];
      if approve && c.status !in {Validated, WaitingForApproval} {
        return false;
      }
      if c.status in {Applied, Superseded} {
        return false;
      }
      var status := if approve then Approved else Rejected;
      candidates := candidates[id := c.(status := status, statusReason := reason,
                                        decision := Some(DecisionRecord(approve, reason, c.status)))];
      return true;
    }

    /** Applies an approved candidate; `revision` is what the executed command produced,
        empty if it produced none. */
    method ApplyCandidate(id: string, commandId: string, revision: string) returns (ok: bool)
      modifies this
      ensures candidates == Step(old(candidates), Apply(id, commandId, revision))
      ensures ok <==> WriteOf(old(candidates), Apply(id, commandId, revision)).Some?
      ensures ok <==>
        && id != "" && id in old(candidates) && old(candidates)[id].status == Approved && revision != ""
        && exists command :: IsApplyCommand(old(candidates)[id], command) && command.action in APPLY_COMMAND_ACTIONS
      ensures candidates ==
        if ok then old(candidates)[id := old(candidates)[id].(
                     status := Applied, statusReason := "Applied by command " + commandId + ".",
                     appliedRevision := Some(revision))]
        else old(candidates)
    {
      if id == "" || id !in candidates || candidates[id].status != Approved {
        return false;
      }
      var command := CommandOf(candidates[id]);
      if command.None? || command.value.action !in APPLY_COMMAND_ACTIONS || revision == "" {
        return false;
      }
      candidates := candidates[id := candidates[id].(status := Applied, statusReason := AppliedReason(commandId),
                                                     appliedRevision := Some(revision))];
      return true;
    }
  }

  // ---------- whole runs ----------

  function RunOf(events: seq<Event>): Table {
    if events == [] then map[] else Step(RunOf(events[..|events| - 1]), events[|events| - 1])
  }

  /** A review's proposals continue a run, one event each. */
  lemma {:induction false} ReviewContinuesRun(events: seq<Event>, more: seq<Event>)
    ensures StepAll(RunOf(events), more) == RunOf(events + more)
  {
    if more == [] {
      assert events + more == events;
    } else {
      ReviewContinuesRun(events, more[..|more| - 1]);
      assert (events + more)[..|events + more| - 1] == events + more[..|more| - 1];
    }
  }

  /** The status writes to candidate `id`, oldest first. */
  function LogOf(events: seq<Event>, id: string): seq<Write> {
    if events == [] then []
    else
      var init, last := events[..|events| - 1], events[|events| - 1];
      var w := if last.id == id then WriteOf(RunOf(init), last) else None;
      LogOf(init, id) + (if w.Some? then [w.value] else [])
  }

  /** The run linked last. */
  function LinkedRun(log: seq<Write>): string {
    if log == [] then ""
    else if log[|log| - 1].LinkedTo? then log[|log| - 1].runId
    else LinkedRun(log[..|log| - 1])
  }

  /** What may be written after `before`. */
  predicate MayFollow(before: seq<Write>, w: Write) {
    match w
    case InsertedAs(_) => before == []
    case LinkedTo(runId) => before != [] && runId != ""
    case SyncedFrom(runId, completed, status) =>
      && before != [] && runId == LinkedRun(before) && runId != ""
      && if completed then status in {Validated, NeedsChanges, Rejected, WaitingForApproval} else status == Failed
    case Decided(approve) =>
      && before != []
      && (approve ==> before[|before| - 1].StatusWritten() in {Validated, WaitingForApproval})
      && before[|before| - 1].StatusWritten() !in {Applied, Superseded}
    case AppliedBy(revision) => before != [] && before[|before| - 1].StatusWritten() == Approved && revision != ""
  }

  predicate LegalLog(log: seq<Write>) {
    forall k :: 0 <= k < |log| ==> MayFollow(log[..k], log[k])
  }

  /** The log accounts for the candidate's state. */
  predicate Accounts(log: seq<Write>, t: Table, id: string) {
    && (id in t <==> log != [])
    && (id in t ==> t[id].status == log[|log| - 1].StatusWritten() && t[id].validationRunId == LinkedRun(log))
  }

  lemma LegalLogGrows(log: seq<Write>, w: Write)
    requires LegalLog(log) && MayFollow(log, w)
    ensures LegalLog(log + [w])
  {
    var more := log + [w];
    forall k | 0 <= k < |more| ensures MayFollow(more[..k], more[k]) {
      if k < |log| {
        assert more[..k] == log[..k];
      } else {
        assert more[..k] == log;
      }
    }
  }

  lemma WriteMayFollow(log: seq<Write>, t: Table, e: Event)
    requires Accounts(log, t, e.id) && WriteOf(t, e).Some?
    ensures MayFollow(log, WriteOf(t, e).value)
    ensures Accounts(log + [WriteOf(t, e).value], Step(t, e), e.id)
  {
    var w := WriteOf(t, e).value;
    assert (log + [w])[..|log|] == log;
  }

  /** Every run's log is legal and accounts for the state reached. */
  lemma {:induction false} RunsAreLegal(events: seq<Event>, id: string)
    ensures LegalLog(LogOf(events, id)) && Accounts(LogOf(events, id), RunOf(events), id)
  {
    if events != [] {
      var init, last := events[..|events| - 1], events[|events| - 1];
      RunsAreLegal(init, id);
      var t, log := RunOf(init), LogOf(init, id);
      if last.id == id && WriteOf(t, last).Some? {
        WriteMayFollow(log, t, last);
        LegalLogGrows(log, WriteOf(t, last).value);
      } else {
        assert log + [] == log;
      }
    }
  }

  /** Event `j` of the run is the synchronization that made the write, from what its run
      said of the candidate. */
  ghost predicate StemsFrom(events: seq<Event>, id: string, w: Write, j: nat) {
    && w.SyncedFrom? && j < |events| && events[j].Sync? && events[j].id == id && w.runId in events[j].runs
    && Says(events[j].runs[w.runId], id, w.status)
    && (w.completed <==> events[j].runs[w.runId].status == RunCompleted)
  }

  ghost predicate Stems(events: seq<Event>, id: string, w: Write) {
    exists j: nat :: StemsFrom(events, id, w, j)
  }

  /** Every status taken over from a run is what that run said. */
  lemma {:induction false} SyncedStatusStems(events: seq<Event>, id: string, k: nat)
    requires k < |LogOf(events, id)| && LogOf(events, id)[k].SyncedFrom?
    ensures Stems(events, id, LogOf(events, id)[k])
  {
    var init, last := events[..|events| - 1], events[|events| - 1];
    var w := LogOf(events, id)[k];
    if k < |LogOf(init, id)| {
      SyncedStatusStems(init, id, k);
      var j: nat :| StemsFrom(init, id, w, j);
      assert StemsFrom(events, id, w, j);
    } else {
      SyncWrites(RunOf(init), last, w.runId, w.completed, w.status);
      assert StemsFrom(events, id, w, |events| - 1);
    }
  }

  /** A write that completes validation with a recommendation to go on. */
  predicate Validates(before: seq<Write>, w: Write) {
    && w.SyncedFrom? && w.completed && w.status in {Validated, WaitingForApproval}
    && w.runId == LinkedRun(before) && w.runId != ""
  }

  /** The write before `k` is an approval, and the one before that validates. */
  predicate FollowsValidation(log: seq<Write>, k: nat)
    requires k < |log|
  {
    k >= 2 && log[k - 1] == Decided(true) && Validates(log[..k - 2], log[k - 2])
  }

  /** Write `k` applies the candidate: the write before is an approval, and the one before
      that takes over the recommendation which the linked and completed validation run
      gave for it. */
  ghost predicate ProperlyApplied(events: seq<Event>, id: string, k: nat)
    requires k < |LogOf(events, id)|
  {
    FollowsValidation(LogOf(events, id), k) && Stems(events, id, LogOf(events, id)[k - 2])
  }

  /** The statuses that let an inserted candidate bypass validation or approval. */
  predicate Bypasses(s: Status) {
    s in {Approved, Validated, WaitingForApproval}
  }

  lemma FollowsOneBefore(log: seq<Write>, k: nat)
    requires LegalLog(log) && 0 < k < |log|
    ensures MayFollow(log[..k], log[k]) && log[..k] != [] && log[..k][|log[..k]| - 1] == log[k - 1]
    ensures !log[k].InsertedAs?
  {
  }

  lemma FirstIsInsert(log: seq<Write>)
    requires LegalLog(log) && log != []
    ensures log[0].InsertedAs?
  {
    assert MayFollow(log[..0], log[0]);
  }

  lemma AppliedInLegalLog(log: seq<Write>, k: nat)
    requires LegalLog(log) && k < |log| && log[k].AppliedBy?
    ensures log[0].InsertedAs?
    ensures !Bypasses(log[0].status) ==> FollowsValidation(log, k)
  {
    FirstIsInsert(log);
    FollowsOneBefore(log, k);
    if k >= 2 {
      FollowsOneBefore(log, k - 1);
      assert log[k - 1] == Decided(true);
      if k > 2 {
        FollowsOneBefore(log, k - 2);
      }
    }
  }

  /** A candidate that was not inserted with one of the bypassing statuses is applied only
      after validation and approval, in this order and with nothing in between, however
      often it was linked, synced, decided or proposed again before. */
  lemma AppliedOnlyProperly(events: seq<Event>, id: string, k: nat)
    requires k < |LogOf(events, id)| && LogOf(events, id)[k].AppliedBy?
    ensures LogOf(events, id)[0].InsertedAs?
    ensures !Bypasses(LogOf(events, id)[0].status) ==> ProperlyApplied(events, id, k)
  {
    RunsAreLegal(events, id);
    AppliedInLegalLog(LogOf(events, id), k);
    if FollowsValidation(LogOf(events, id), k) {
      SyncedStatusStems(events, id, k - 2);
    }
  }

  /** Each bypassing status does let a candidate be applied improperly: the insert takes
      over whatever status the proposal names. */
  lemma BypassIsPossible(s: Status, id: string, command: Command) returns (events: seq<Event>)
    requires Bypasses(s) && id != "" && command.action in APPLY_COMMAND_ACTIONS
    ensures var log := LogOf(events, id);
            && log != [] && log[0] == InsertedAs(s) && log[|log| - 1].AppliedBy? && !FollowsValidation(log, |log| - 1)
  {
    var insert := Upsert(id, Item(Some(s), "", Some(command)));
    var approve, apply := Decide(id, true, ""), Apply(id, "command", "revision");
    assert [insert][..0] == [];
    assert RunOf([insert]) == Step(map[], insert);
    assert LogOf([insert], id) == [InsertedAs(s)];
    if s == Approved {
      events := [insert, apply];
      assert events[..1] == [insert];
    } else {
      assert [insert, approve][..1] == [insert];
      assert LogOf([insert, approve], id) == [InsertedAs(s), Decided(true)];
      events := [insert, approve, apply];
      assert events[..2] == [insert, approve];
      assert LogOf(events, id) == [InsertedAs(s), Decided(true), AppliedBy("revision")];
    }
  }

  /** For which statuses at insertion is every application proper? Exactly for those that
      do not bypass. */
  lemma ProperExactly(s: Status, id: string, command: Command)
    requires id != "" && command.action in APPLY_COMMAND_ACTIONS
    ensures (forall events: seq<Event>, k: nat ::
               k < |LogOf(events, id)| && LogOf(events, id)[0] == InsertedAs(s) && LogOf(events, id)[k].AppliedBy?
               ==> ProperlyApplied(events, id, k))
            <==> !Bypasses(s)
  {
    if Bypasses(s) {
      var events := BypassIsPossible(s, id, command);
      assert !ProperlyApplied(events, id, |LogOf(events, id)| - 1);
    } else {
      forall events: seq<Event>, k: nat
        | k < |LogOf(events, id)| && LogOf(events, id)[0] == InsertedAs(s) && LogOf(events, id)[k].AppliedBy?
        ensures ProperlyApplied(events, id, k)
      {
        AppliedOnlyProperly(events, id, k);
      }
    }
  }

  // ---------- proposing again ----------

  predicate IsReproposal(t: Table, e: Event) {
    e.Upsert? && e.id in t
  }

  /** The events without those that propose a known candidate again. */
  function FirstProposalsOnly(events: seq<Event>): seq<Event> {
    if events == [] then []
    else
      var init, last := events[..|events| - 1], events[|events| - 1];
      FirstProposalsOnly(init) + (if IsReproposal(RunOf(init), last) then [] else [last])
  }

  /** What was proposed for `id` first. */
  function FirstItem(events: seq<Event>, id: string): Option<Item> {
    if events == [] then None
    else
      var init, last := events[..|events| - 1], events[|events| - 1];
      var item := FirstItem(init, id);
      if item.None? && last.Upsert? && last.id == id && id != "" then Some(last.item) else item
  }

  /** An attempt to apply takes the command from the proposal. */
  predicate ReadsProposal(t: Table, e: Event) {
    && e.Apply? && e.id != "" && e.id in t && e.revision != ""
    && t[e.id].status == Approved
    && (t[e.id].validationResult.None? || t[e.id].validationResult.value.applyCommand.None?)
  }

  /** Whenever an attempt to apply takes its command from the proposal, the latest proposal
      and the first agree on whether there is a supported one. */
  predicate ProposalsAgree(events: seq<Event>) {
    events == []
    || (var init, last := events[..|events| - 1], events[|events| - 1];
        && ProposalsAgree(init)
        && (ReadsProposal(RunOf(init), last) ==>
              FirstItem(init, last.id).Some? &&
              (Supported(RunOf(init)[last.id].payload.applyCommand)
               <==> Supported(FirstItem(init, last.id).value.applyCommand))))
  }

  /** After every event, all logs are what they are without the repeated proposals. */
  ghost predicate LogsAgree(events: seq<Event>) {
    && (events != [] ==> LogsAgree(events[..|events| - 1]))
    && forall id :: LogOf(events, id) == LogOf(FirstProposalsOnly(events), id)
  }

  /** The tables differ in proposals only. */
  ghost predicate SameButProposals(t: Table, u: Table) {
    t.Keys == u.Keys && forall id :: id in t ==> t[id] == u[id].(payload := t[id].payload)
  }

  /** `u` holds the first proposals. */
  ghost predicate HoldsFirst(u: Table, events: seq<Event>) {
    forall id :: if id in u then FirstItem(events, id) == Some(u[id].payload) else FirstItem(events, id) == None
  }

  lemma RunOneMore(events: seq<Event>, e: Event, id: string)
    ensures RunOf(events + [e]) == Step(RunOf(events), e)
    ensures LogOf(events + [e], id) ==
            LogOf(events, id)
            + (if e.id == id && WriteOf(RunOf(events), e).Some? then [WriteOf(RunOf(events), e).value] else [])
    ensures FirstProposalsOnly(events + [e]) ==
            FirstProposalsOnly(events) + (if IsReproposal(RunOf(events), e) then [] else [e])
  {
    assert (events + [e])[..|events|] == events;
  }

  /** The event makes the same write in both tables, unless it reads proposals that
      disagree; then it makes one in only one of them. */
  lemma WritesAgree(t: Table, u: Table, e: Event)
    requires SameButProposals(t, u) && !IsReproposal(t, e)
    ensures if ReadsProposal(t, e) && Supported(t[e.id].payload.applyCommand) != Supported(u[e.id].payload.applyCommand)
            then WriteOf(t, e).Some? != WriteOf(u, e).Some?
            else WriteOf(t, e) == WriteOf(u, e)
  {
  }

  lemma StepKeepsSame(t: Table, u: Table, e: Event)
    requires SameButProposals(t, u) && !IsReproposal(t, e) && WriteOf(t, e) == WriteOf(u, e)
    ensures SameButProposals(Step(t, e), Step(u, e))
  {
  }

  lemma ReproposalKeepsSame(t: Table, u: Table, e: Event)
    requires SameButProposals(t, u) && IsReproposal(t, e)
    ensures SameButProposals(Step(t, e), u) && WriteOf(t, e) == None
  {
  }

  lemma StepKeepsFirst(u: Table, init: seq<Event>, e: Event)
    requires HoldsFirst(u, init)
    ensures HoldsFirst(if IsReproposal(u, e) then u else Step(u, e), init + [e])
  {
    assert (init + [e])[..|init|] == init;
  }

  /** One more event in the runs with and without repeated proposals. */
  lemma OneMoreSideBySide(init: seq<Event>, e: Event)
    requires ProposalsAgree(init) && LogsAgree(init)
    requires SameButProposals(RunOf(init), RunOf(FirstProposalsOnly(init)))
    requires HoldsFirst(RunOf(FirstProposalsOnly(init)), init)
    ensures LogsAgree(init + [e]) <==> ProposalsAgree(init + [e])
    ensures ProposalsAgree(init + [e]) ==>
              && SameButProposals(RunOf(init + [e]), RunOf(FirstProposalsOnly(init + [e])))
              && HoldsFirst(RunOf(FirstProposalsOnly(init + [e])), init + [e])
  {
    var events, kept := init + [e], FirstProposalsOnly(init);
    var t, u := RunOf(init), RunOf(kept);
    assert events[..|init|] == init;
    StepKeepsFirst(u, init, e);
    if IsReproposal(t, e) {
      assert FirstProposalsOnly(events) == kept;
      ReproposalKeepsSame(t, u, e);
      forall id ensures LogOf(events, id) == LogOf(kept, id) {
        RunOneMore(init, e, id);
      }
    } else {
      WritesAgree(t, u, e);
      forall id ensures LogOf(events, id) == LogOf(kept + [e], id) <==> e.id != id || WriteOf(t, e) == WriteOf(u, e) {
        RunOneMore(init, e, id);
        RunOneMore(kept, e, id);
      }
      RunOneMore(kept, e, e.id);
      if WriteOf(t, e) == WriteOf(u, e) {
        StepKeepsSame(t, u, e);
      }
    }
  }

  /** Proposing known candidates again leaves every log of status writes as it is, and every
      candidate but for its proposal; exactly as long as no attempt to apply takes its
      command from proposals that disagree on it. */
  lemma {:induction false} ReproposalKeepsState(events: seq<Event>)
    ensures LogsAgree(events) <==> ProposalsAgree(events)
    ensures ProposalsAgree(events) ==>
              && SameButProposals(RunOf(events), RunOf(FirstProposalsOnly(events)))
              && HoldsFirst(RunOf(FirstProposalsOnly(events)), events)
  {
    if events != [] {
      var init, last := events[..|events| - 1], events[|events| - 1];
      ReproposalKeepsState(init);
      assert init + [last] == events;
      if ProposalsAgree(init) {
        OneMoreSideBySide(init, last);
      }
    }
  }

  /** Changing, adding or dropping repeated proposals changes no log and no state, as long as
      they agree. */
  lemma AlteredReproposals(a: seq<Event>, b: seq<Event>, id: string)
    requires FirstProposalsOnly(a) == FirstProposalsOnly(b) && ProposalsAgree(a) && ProposalsAgree(b)
    ensures LogOf(a, id) == LogOf(b, id) && SameButProposals(RunOf(a), RunOf(b))
  {
    ReproposalKeepsState(a);
    ReproposalKeepsState(b);
  }

  /** A repeated proposal can make an approved candidate applicable that was not. */
  lemma ReproposalCanApply(id: string, command: Command) returns (events: seq<Event>)
    requires id != "" && command.action in APPLY_COMMAND_ACTIONS
    ensures !ProposalsAgree(events)
    ensures LogOf(events, id) == [InsertedAs(Approved), AppliedBy("revision")]
    ensures LogOf(FirstProposalsOnly(events), id) == [InsertedAs(Approved)]
  {
    var insert, again := Upsert(id, Item(Some(Approved), "", None)), Upsert(id, Item(None, "", Some(command)));
    var apply := Apply(id, "command", "revision");
    events := [insert] + [again] + [apply];
    RunOneMore([], insert, id);
    RunOneMore([insert], again, id);
    RunOneMore([insert] + [again], apply, id);
    assert FirstProposalsOnly([]) == [] && [] + [insert] == [insert];
    assert FirstProposalsOnly(events) == [insert] + [apply];
    RunOneMore([insert], apply, id);
    assert !LogsAgree(events);
    ReproposalKeepsState(events);
  }

  /** Even so it can change what an approved candidate will do: the command stays the same
      exactly when the validation result names one, or the new proposal names the old. */
  lemma ReproposalKeepsCommand(t: Table, id: string, item: Item)
    requires id != "" && id in t
    ensures CommandOf(Step(t, Upsert(id, item))[id]) == CommandOf(t[id]) <==>
            (t[id].validationResult.Some? && t[id].validationResult.value.applyCommand.Some?)
            || item.applyCommand == t[id].payload.applyCommand
  {
  }
}
