/**
 * SupabaseUpsert.execute: one POST per input item, in order, with the
 * continue-on-fail / abort policy. The host's services are inputs.
 */
module Upsert {

  import opened Wrappers
  import opened Json
  import opened Text
  import opened Request

  /** The node parameters as evaluated for one item. */
  datatype Params = Params(
    resource: string,
    operation: string,
    tableName: string,
    binaryPropertyName: string,
    conflictResolution: string,
    onConflictColumns: string)

  /** An input item; only its named binary attachments matter here. */
  datatype Item = Item(binary: map<string, Bytes>)

  /** What the host's HTTP helper does with one request. */
  datatype HttpOutcome = Ok(response: JVal) | Err(message: string)

  /** Everything the host supplies: the stored credential (None when it
      cannot be read), the input items, the parameter values per item index,
      the transport (which may depend on the item index, since the remote
      table changes between requests) and the continue-on-fail setting. */
  datatype Host = Host(
    credentials: Option<Credentials>,
    items: seq<Item>,
    param: nat -> Params,
    transport: (nat, HttpRequest) -> HttpOutcome,
    continueOnFail: bool)

  /** Why one item failed: its attachment is missing, or the request failed. */
  datatype Failure = MissingBinary(propertyName: string) | RequestFailed(message: string)

  /** The `json` of an output record. */
  datatype RecordJson =
    | Upserted(table: string, response: JVal, rowsAffected: nat)
    | Failed(error: Failure)
  {
    predicate Success() { Upserted? }
  }

  datatype Record = Record(json: RecordJson, pairedItem: nat)

  /** A request the node issued, with the index of the item it was for. */
  datatype Sent = Sent(item: nat, request: HttpRequest)

  /** How a run ends: the output list, an error naming the failing item,
      or an error before any item when the credential cannot be read. */
  datatype Outcome =
    | Completed(output: seq<Record>)
    | Aborted(itemIndex: nat, failure: Failure)
    | NoCredentials

  datatype Run = Run(outcome: Outcome, sent: seq<Sent>)

  /** What happens to one item: nothing (another operation is selected), an
      upsert that succeeded, or a failure, after a request or before one. */
  datatype Step =
    | Skip
    | Done(request: HttpRequest, table: string, response: JVal)
    | Fail(attempted: Option<HttpRequest>, failure: Failure)

  /** `rowsAffected`: the length of an array response, 1 for anything else. */
  function RowsAffected(response: JVal): (n: nat)
    ensures response.JArray? ==> n == |response.elems|
    ensures !response.JArray? ==> n == 1
    ensures n == 0 <==> response == JArray([])
  {
    match response
    case JArray(elems) => |elems|
    case _ => 1
  }

  /** `resource` and `operation` are read at index 0 only. */
  predicate IsUpsert(h: Host)
  {
    h.param(0).resource == "csvData" && h.param(0).operation == "upsert"
  }

  predicate HasBinary(h: Host, i: nat)
    requires i < |h.items|
  {
    h.param(i).binaryPropertyName in h.items[i].binary
  }

  /** The request for item `i`, once its attachment is known to exist. */
  function ItemRequest(h: Host, cred: Credentials, i: nat): HttpRequest
    requires i < |h.items| && HasBinary(h, i)
  {
    var p := h.param(i);
    BuildRequest(cred, p.tableName, p.conflictResolution, p.onConflictColumns, h.items[i].binary[p.binaryPropertyName])
  }

  /** The request a step handed to the transport, if any. */
  function StepRequest(s: Step): Option<HttpRequest>
  {
    match s
    case Skip => None
    case Done(request, _, _) => Some(request)
    case Fail(attempted, _) => attempted
  }

  /** One pass of the loop body for item `i`: the attachment is checked
      before any request is built, so a missing one means no request. */
  function ProcessItem(h: Host, cred: Credentials, i: nat): (s: Step)
    requires i < |h.items|
    ensures s.Skip? <==> !IsUpsert(h)
    ensures StepRequest(s).Some? <==> IsUpsert(h) && HasBinary(h, i)
    ensures StepRequest(s).Some? ==> StepRequest(s).value == ItemRequest(h, cred, i)
    ensures s.Fail? && StepRequest(s).None? ==> s.failure == MissingBinary(h.param(i).binaryPropertyName)
    ensures s.Done? ==> s.table == h.param(i).tableName && h.transport(i, s.request) == Ok(s.response)
    ensures s.Fail? && s.attempted.Some? ==>
      s.failure.RequestFailed? && h.transport(i, s.attempted.value) == Err(s.failure.message)
  {
    if !IsUpsert(h) then Skip
    else if !HasBinary(h, i) then Fail(None, MissingBinary(h.param(i).binaryPropertyName))
    else
      var request := ItemRequest(h, cred, i);
      match h.transport(i, request)
      case Ok(response) => Done(request, h.param(i).tableName, response)
      case Err(message) => Fail(Some(request), RequestFailed(message))
  }

  /** The record an item contributes to the output (when it contributes one). */
  function StepJson(s: Step): (j: RecordJson)
    requires !s.Skip?
    ensures j.Success() <==> s.Done?
    ensures s.Done? ==> j.table == s.table && j.response == s.response && j.rowsAffected == RowsAffected(s.response)
    ensures s.Fail? ==> j == Failed(s.failure)
  {
    match s
    case Done(_, table, response) => Upserted(table, response, RowsAffected(response))
    case Fail(_, failure) => Failed(failure)
  }

  /** The run after item `i`, given the run before it and the item's step:
      a failure is caught, then recorded or turned into the run's error. */
  function Advance(continueOnFail: bool, prev: Run, i: nat, s: Step): (r: Run)
    requires prev.outcome.Completed?
    ensures s.Skip? ==> r == prev
    ensures r.outcome.Completed? <==> !s.Fail? || continueOnFail
    ensures r.outcome.Completed? && !s.Skip? ==>
      r.outcome.output == prev.outcome.output + [Record(StepJson(s), i)]
    ensures !r.outcome.Completed? ==> s.Fail? && r.outcome == Aborted(i, s.failure)
    ensures StepRequest(s).None? ==> r.sent == prev.sent
    ensures StepRequest(s).Some? ==> r.sent == prev.sent + [Sent(i, StepRequest(s).value)]
  {
    var sent := match StepRequest(s)
      case None => prev.sent
      case Some(request) => prev.sent + [Sent(i, request)];
    match s
    case Skip => prev
    case Done(_, _, _) => Run(Completed(prev.outcome.output + [Record(StepJson(s), i)]), sent)
    case Fail(_, failure) =>
      if continueOnFail then Run(Completed(prev.outcome.output + [Record(StepJson(s), i)]), sent)
      else Run(Aborted(i, failure), sent)
  }

  /** The state of a run after the first `n` of the given per-item steps. */
  function RunSteps(continueOnFail: bool, steps: seq<Step>, n: nat): (r: Run)
    requires n <= |steps|
    ensures !r.outcome.NoCredentials?
    ensures r.outcome.Aborted? ==> r.outcome.itemIndex < n
    ensures |r.sent| <= n
  {
    if n == 0 then Run(Completed([]), [])
    else
      var prev := RunSteps(continueOnFail, steps, n - 1);
      if !prev.outcome.Completed? then prev
      else Advance(continueOnFail, prev, n - 1, steps[n - 1])
  }

  /** The step of every item. */
  function Steps(h: Host, cred: Credentials): (steps: seq<Step>)
    ensures |steps| == |h.items|
    ensures forall i :: 0 <= i < |h.items| ==> steps[i] == ProcessItem(h, cred, i)
  {
    seq(|h.items|, i requires 0 <= i < |h.items| => ProcessItem(h, cred, i))
  }

  /** Requests tagged with strictly increasing item indices: at most one per item. */
  predicate InItemOrder(sent: seq<Sent>)
  {
    forall j, k :: 0 <= j < k < |sent| ==> sent[j].item < sent[k].item
  }

  /** The whole run. */
  function Execution(h: Host): (r: Run)
    ensures r.outcome.NoCredentials? <==> h.credentials.None?
    ensures r.outcome.NoCredentials? ==> r.sent == []
    ensures r.outcome.Aborted? ==> r.outcome.itemIndex < |h.items|
    ensures |r.sent| <= |h.items|
    ensures InItemOrder(r.sent)
  {
    match h.credentials
    case None => Run(NoCredentials, [])
    case Some(cred) =>
      var steps := Steps(h, cred);
      SentInItemOrder(h.continueOnFail, steps, |h.items|);
      RunSteps(h.continueOnFail, steps, |h.items|)
  }

  // ---------------------------------------------------------------------
  // The run policy, for any sequence of steps

  /** One more item, on a run that has not aborted. */
  lemma {:induction false} RunStepsNext(continueOnFail: bool, steps: seq<Step>, i: nat)
    requires i < |steps| && RunSteps(continueOnFail, steps, i).outcome.Completed?
    ensures RunSteps(continueOnFail, steps, i + 1) == Advance(continueOnFail, RunSteps(continueOnFail, steps, i), i, steps[i])
  {
  }

  /** Once a run has aborted, later items change nothing. */
  lemma {:induction false} AbortIsFinal(continueOnFail: bool, steps: seq<Step>, n: nat, m: nat)
    requires n <= m <= |steps|
    requires !RunSteps(continueOnFail, steps, n).outcome.Completed?
    ensures RunSteps(continueOnFail, steps, m) == RunSteps(continueOnFail, steps, n)
  {
    if m > n {
      AbortIsFinal(continueOnFail, steps, n, m - 1);
    }
  }

  /** A failure without continue-on-fail decides the outcome of the whole run. */
  lemma {:induction false} AbortEndsRun(continueOnFail: bool, steps: seq<Step>, i: nat)
    requires i < |steps| && RunSteps(continueOnFail, steps, i).outcome.Completed?
    requires steps[i].Fail? && !continueOnFail
    ensures RunSteps(continueOnFail, steps, |steps|) == RunSteps(continueOnFail, steps, i + 1)
    ensures RunSteps(continueOnFail, steps, i + 1) == Advance(continueOnFail, RunSteps(continueOnFail, steps, i), i, steps[i])
  {
    RunStepsNext(continueOnFail, steps, i);
    AbortIsFinal(continueOnFail, steps, i + 1, |steps|);
  }

  /** With no skipped item, a run that has not aborted (always the case with
      continue-on-fail) has exactly one record per item, at its own position. */
  lemma {:induction false} OneRecordPerStep(continueOnFail: bool, steps: seq<Step>, n: nat)
    requires n <= |steps|
    requires forall k :: 0 <= k < |steps| ==> !steps[k].Skip?
    requires continueOnFail || RunSteps(continueOnFail, steps, n).outcome.Completed?
    ensures RunSteps(continueOnFail, steps, n).outcome.Completed?
    ensures |RunSteps(continueOnFail, steps, n).outcome.output| == n
    ensures forall k :: 0 <= k < n ==>
      RunSteps(continueOnFail, steps, n).outcome.output[k] == Record(StepJson(steps[k]), k)
  {
    if n > 0 {
      if !continueOnFail && !RunSteps(continueOnFail, steps, n - 1).outcome.Completed? {
        assert false;
      }
      OneRecordPerStep(continueOnFail, steps, n - 1);
      RunStepsNext(continueOnFail, steps, n - 1);
    }
  }

  /** Without continue-on-fail, the run aborts exactly when some step fails,
      and then names the first failing item and its failure. */
  lemma {:induction false} AbortAtFirstFailingStep(steps: seq<Step>, n: nat)
    requires n <= |steps|
    ensures var o := RunSteps(false, steps, n).outcome;
      && !o.NoCredentials?
      && (o.Aborted? <==> exists k :: 0 <= k < n && steps[k].Fail?)
      && (o.Aborted? ==>
            && o.itemIndex < n
            && steps[o.itemIndex].Fail?
            && o.failure == steps[o.itemIndex].failure
            && forall j :: 0 <= j < o.itemIndex ==> !steps[j].Fail?)
  {
    if n > 0 {
      AbortAtFirstFailingStep(steps, n - 1);
      if RunSteps(false, steps, n - 1).outcome.Completed? {
        RunStepsNext(false, steps, n - 1);
      }
    }
  }

  /** Records are in item order, each tagged with the item it came from and
      holding that item's result, with or without continue-on-fail. */
  lemma {:induction false} OutputFollowsSteps(continueOnFail: bool, steps: seq<Step>, n: nat)
    requires n <= |steps|
    ensures var o := RunSteps(continueOnFail, steps, n).outcome;
      o.Completed? ==>
        && |o.output| <= n
        && (forall k :: 0 <= k < |o.output| ==>
              && o.output[k].pairedItem < n
              && !steps[o.output[k].pairedItem].Skip?
              && o.output[k].json == StepJson(steps[o.output[k].pairedItem]))
        && (forall j, k :: 0 <= j < k < |o.output| ==> o.output[j].pairedItem < o.output[k].pairedItem)
  {
    if n > 0 {
      OutputFollowsSteps(continueOnFail, steps, n - 1);
      if RunSteps(continueOnFail, steps, n - 1).outcome.Completed? {
        RunStepsNext(continueOnFail, steps, n - 1);
      }
    }
  }

  /** The items a request was issued for. */
  function Requested(sent: seq<Sent>): set<nat>
  {
    set k | 0 <= k < |sent| :: sent[k].item
  }

  /** Requests go out in item order, each being the one its step built. */
  lemma {:induction false} SentFollowsSteps(continueOnFail: bool, steps: seq<Step>, n: nat)
    requires n <= |steps|
    ensures var sent := RunSteps(continueOnFail, steps, n).sent;
      && (forall k :: 0 <= k < |sent| ==>
            sent[k].item < n && StepRequest(steps[sent[k].item]) == Some(sent[k].request))
      && (forall j, k :: 0 <= j < k < |sent| ==> sent[j].item < sent[k].item)
  {
    if n > 0 {
      SentFollowsSteps(continueOnFail, steps, n - 1);
      var prev := RunSteps(continueOnFail, steps, n - 1);
      if prev.outcome.Completed? {
        RunStepsNext(continueOnFail, steps, n - 1);
        var sent := RunSteps(continueOnFail, steps, n).sent;
        match StepRequest(steps[n - 1])
        case None =>
          assert sent == prev.sent;
        case Some(request) =>
          assert sent == prev.sent + [Sent(n - 1, request)];
      }
    }
  }

  lemma {:induction false} RequestedAppend(sent: seq<Sent>, x: Sent)
    ensures Requested(sent + [x]) == Requested(sent) + {x.item}
  {
    var s' := sent + [x];
    forall i | i in Requested(s') ensures i in Requested(sent) + {x.item} {
      var k :| 0 <= k < |s'| && s'[k].item == i;
      if k < |sent| { assert sent[k].item == i; }
    }
    forall i | i in Requested(sent) ensures i in Requested(s') {
      var k :| 0 <= k < |sent| && sent[k].item == i;
      assert s'[k].item == i;
    }
    assert s'[|sent|].item == x.item;
  }

  /** Only items already processed have been requested. */
  lemma {:induction false} RequestedBelow(continueOnFail: bool, steps: seq<Step>, n: nat)
    requires n <= |steps|
    ensures forall i :: i in Requested(RunSteps(continueOnFail, steps, n).sent) ==> i < n
  {
    SentFollowsSteps(continueOnFail, steps, n);
  }

  /** One more item adds its own index to the requested items exactly when
      its step builds a request, and an abort at that point names it. */
  lemma {:induction false} RequestedNext(continueOnFail: bool, steps: seq<Step>, i: nat)
    requires i < |steps| && RunSteps(continueOnFail, steps, i).outcome.Completed?
    ensures var prev := RunSteps(continueOnFail, steps, i);
      var r := RunSteps(continueOnFail, steps, i + 1);
      && i !in Requested(prev.sent)
      && Requested(r.sent) == Requested(prev.sent) + (if StepRequest(steps[i]).Some? then {i} else {})
      && (r.outcome.Aborted? ==> r.outcome.itemIndex == i)
  {
    var prev := RunSteps(continueOnFail, steps, i);
    RunStepsNext(continueOnFail, steps, i);
    RequestedBelow(continueOnFail, steps, i);
    match StepRequest(steps[i])
    case None =>
    case Some(request) =>
      RequestedAppend(prev.sent, Sent(i, request));
  }

  /** An item's request is issued exactly when its step builds one and the
      run has not aborted on an earlier item. */
  lemma {:induction false} RequestedItems(continueOnFail: bool, steps: seq<Step>, n: nat)
    requires n <= |steps|
    ensures var r := RunSteps(continueOnFail, steps, n);
      forall i :: 0 <= i < n ==>
        (i in Requested(r.sent) <==>
          StepRequest(steps[i]).Some? && (r.outcome.Aborted? ==> i <= r.outcome.itemIndex))
  {
    if n > 0 {
      RequestedItems(continueOnFail, steps, n - 1);
      if RunSteps(continueOnFail, steps, n - 1).outcome.Completed? {
        RequestedNext(continueOnFail, steps, n - 1);
      } else {
        RequestedBelow(continueOnFail, steps, n - 1);
      }
    }
  }

  /** Requests go out in strictly increasing item order. */
  lemma {:induction false} SentInItemOrder(continueOnFail: bool, steps: seq<Step>, n: nat)
    requires n <= |steps|
    ensures InItemOrder(RunSteps(continueOnFail, steps, n).sent)
  {
    SentFollowsSteps(continueOnFail, steps, n);
  }

  /** When every step is skipped, nothing is recorded and nothing is sent. */
  lemma {:induction false} SkippedStepsDoNothing(continueOnFail: bool, steps: seq<Step>, n: nat)
    requires n <= |steps|
    requires forall k :: 0 <= k < |steps| ==> steps[k].Skip?
    ensures RunSteps(continueOnFail, steps, n) == Run(Completed([]), [])
  {
    if n > 0 {
      SkippedStepsDoNothing(continueOnFail, steps, n - 1);
      RunStepsNext(continueOnFail, steps, n - 1);
    }
  }
}
