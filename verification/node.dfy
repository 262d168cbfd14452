/**
 * The node's `execute`, as the imperative loop it is, proved against the
 * run it specifies, and the properties of that run in the host's terms.
 */
module Node {

  import opened Wrappers
  import opened Json
  import opened Text
  import opened Request
  import opened Upsert

  /** The body of the `try` for item `i`, once the operation is known to be
      the CSV upsert: read the parameters, check the attachment, build the
      header map (extending `Prefer` in place), build the URL and send. */
  method UpsertItem(h: Host, cred: Credentials, i: nat) returns (s: Step)
    requires i < |h.items| && IsUpsert(h)
    ensures s == ProcessItem(h, cred, i)
  {
    var p := h.param(i);
    if p.binaryPropertyName !in h.items[i].binary {
      return Fail(None, MissingBinary(p.binaryPropertyName));
    }
    var csvBuffer := h.items[i].binary[p.binaryPropertyName];
    var headers := map[
      "apikey" := cred.serviceKey,
      "Authorization" := "Bearer=" + cred.serviceKey,
      "Content-Type" := "text/csv",
      "Accept" := "application/json",
      "Prefer" := ResolutionKey + p.conflictResolution
    ];
    assert headers == Headers(cred.serviceKey, ResolutionKey + p.conflictResolution);
    if Trim(p.onConflictColumns) != [] {
      headers := headers["Prefer" := headers["Prefer"] + OnConflictKey + Trim(p.onConflictColumns)];
      HeadersWithPrefer(cred.serviceKey, ResolutionKey + p.conflictResolution, headers["Prefer"]);
    }
    assert headers == Headers(cred.serviceKey, PreferValue(p.conflictResolution, p.onConflictColumns)) by {
      TrimEmptyIff(p.onConflictColumns);
    }
    var url := RequestUrl(cred.host, p.tableName);
    var request := HttpRequest("POST", url, headers, csvBuffer);
    assert request == ItemRequest(h, cred, i);
    match h.transport(i, request)
    case Ok(response) =>
      s := Done(request, p.tableName, response);
    case Err(message) =>
      s := Fail(Some(request), RequestFailed(message));
  }

  /** The node's loop: items in order; a failure caught for an item either
      becomes an error record (continue-on-fail) or ends the run with the
      item's index. `sent` logs every request handed to the transport. */
  method Execute(h: Host) returns (outcome: Outcome, sent: seq<Sent>)
    ensures Run(outcome, sent) == Execution(h)
  {
    sent := [];
    if h.credentials.None? {
      return NoCredentials, sent;
    }
    var cred := h.credentials.value;
    ghost var steps := Steps(h, cred);
    var resource := h.param(0).resource;
    var operation := h.param(0).operation;
    var returnData: seq<Record> := [];
    var i := 0;
    while i < |h.items|
      invariant i <= |h.items|
      invariant RunSteps(h.continueOnFail, steps, i) == Run(Completed(returnData), sent)
    {
      RunStepsNext(h.continueOnFail, steps, i);
      if resource == "csvData" && operation == "upsert" {
        var s := UpsertItem(h, cred, i);
        if StepRequest(s).Some? {
          sent := sent + [Sent(i, StepRequest(s).value)];
        }
        match s
        case Done(_, table, response) =>
          returnData := returnData + [Record(Upserted(table, response, RowsAffected(response)), i)];
        case Fail(_, failure) =>
          if h.continueOnFail {
            returnData := returnData + [Record(Failed(failure), i)];
          } else {
            AbortEndsRun(h.continueOnFail, steps, i);
            return Aborted(i, failure), sent;
          }
      }
      i := i + 1;
    }
    outcome := Completed(returnData);
  }

  /** With the CSV upsert selected, a run that completes (always the case
      with continue-on-fail) has one record per input item: record k is
      tagged k, and it is item k's upsert result or its error. */
  lemma {:induction false} OneRecordPerItem(h: Host)
    requires h.credentials.Some? && IsUpsert(h)
    requires h.continueOnFail || Execution(h).outcome.Completed?
    ensures var o := Execution(h).outcome;
      && o.Completed?
      && |o.output| == |h.items|
      && forall k :: 0 <= k < |h.items| ==>
           && o.output[k].pairedItem == k
           && (o.output[k].json.Success() <==> ProcessItem(h, h.credentials.value, k).Done?)
           && (!o.output[k].json.Success() ==>
                 o.output[k].json == Failed(ProcessItem(h, h.credentials.value, k).failure))
  {
    var steps := Steps(h, h.credentials.value);
    forall k | 0 <= k < |steps| ensures !steps[k].Skip? {
      assert steps[k] == ProcessItem(h, h.credentials.value, k);
    }
    OneRecordPerStep(h.continueOnFail, steps, |h.items|);
  }

  /** Without continue-on-fail, the run aborts exactly when some item fails;
      the error names the first failing item, and no request is issued for
      any item after it. */
  lemma {:induction false} AbortAtFirstFailure(h: Host)
    requires h.credentials.Some? && !h.continueOnFail
    ensures var r := Execution(h); var cred := h.credentials.value;
      && (r.outcome.Aborted? <==> exists k :: 0 <= k < |h.items| && ProcessItem(h, cred, k).Fail?)
      && (r.outcome.Aborted? ==>
            && r.outcome.itemIndex < |h.items|
            && ProcessItem(h, cred, r.outcome.itemIndex).Fail?
            && r.outcome.failure == ProcessItem(h, cred, r.outcome.itemIndex).failure
            && (forall j :: 0 <= j < r.outcome.itemIndex ==> !ProcessItem(h, cred, j).Fail?)
            && (forall k :: 0 <= k < |r.sent| ==> r.sent[k].item <= r.outcome.itemIndex))
  {
    var steps := Steps(h, h.credentials.value);
    var r := Execution(h);
    assert r == RunSteps(false, steps, |h.items|);
    AbortAtFirstFailingStep(steps, |h.items|);
    RequestedItems(false, steps, |h.items|);
    SentFollowsSteps(false, steps, |h.items|);
    if r.outcome.Aborted? {
      forall k | 0 <= k < |r.sent| ensures r.sent[k].item <= r.outcome.itemIndex {
        assert r.sent[k].item in Requested(r.sent);
      }
    }
  }

  /** Every request issued is the one built from its item's parameters and
      attachment, requests go out in item order, and item i gets one exactly
      when the operation is the CSV upsert, item i carries its named
      attachment and the run has not aborted on an earlier item. */
  lemma {:induction false} RequestsIssued(h: Host)
    requires h.credentials.Some?
    ensures var r := Execution(h); var cred := h.credentials.value;
      && (forall k :: 0 <= k < |r.sent| ==>
            && r.sent[k].item < |h.items|
            && HasBinary(h, r.sent[k].item)
            && r.sent[k].request == ItemRequest(h, cred, r.sent[k].item))
      && (forall j, k :: 0 <= j < k < |r.sent| ==> r.sent[j].item < r.sent[k].item)
      && (forall i :: 0 <= i < |h.items| ==>
            (i in Requested(r.sent) <==>
              IsUpsert(h) && HasBinary(h, i) && (r.outcome.Aborted? ==> i <= r.outcome.itemIndex)))
  {
    var cred := h.credentials.value;
    var steps := Steps(h, cred);
    SentFollowsSteps(h.continueOnFail, steps, |h.items|);
    RequestedItems(h.continueOnFail, steps, |h.items|);
    var r := Execution(h);
    assert r == RunSteps(h.continueOnFail, steps, |h.items|);
    forall k | 0 <= k < |r.sent|
      ensures HasBinary(h, r.sent[k].item) && r.sent[k].request == ItemRequest(h, cred, r.sent[k].item)
    {
      assert steps[r.sent[k].item] == ProcessItem(h, cred, r.sent[k].item);
    }
    forall i | 0 <= i < |h.items|
      ensures StepRequest(steps[i]).Some? <==> IsUpsert(h) && HasBinary(h, i)
    {
      assert steps[i] == ProcessItem(h, cred, i);
    }
  }

  /** An item without its named attachment never reaches the transport. */
  lemma {:induction false} NoRequestWithoutBinary(h: Host, i: nat)
    requires h.credentials.Some? && i < |h.items| && !HasBinary(h, i)
    ensures i !in Requested(Execution(h).sent)
  {
    RequestsIssued(h);
  }

  /** Each record is tagged with an earlier-processed item, in item order;
      a success record names that item's table, holds the transport's
      response for that item's request, and counts rows per RowsAffected. */
  lemma {:induction false} RecordsMatchItems(h: Host)
    requires h.credentials.Some?
    ensures var o := Execution(h).outcome; var cred := h.credentials.value;
      o.Completed? ==>
        && (forall k :: 0 <= k < |o.output| ==>
              && o.output[k].pairedItem < |h.items|
              && (o.output[k].json.Success() ==>
                    && HasBinary(h, o.output[k].pairedItem)
                    && o.output[k].json.table == h.param(o.output[k].pairedItem).tableName
                    && h.transport(o.output[k].pairedItem, ItemRequest(h, cred, o.output[k].pairedItem))
                       == Ok(o.output[k].json.response)
                    && o.output[k].json.rowsAffected == RowsAffected(o.output[k].json.response)))
        && (forall j, k :: 0 <= j < k < |o.output| ==> o.output[j].pairedItem < o.output[k].pairedItem)
  {
    var steps := Steps(h, h.credentials.value);
    OutputFollowsSteps(h.continueOnFail, steps, |h.items|);
  }

  /** When `resource`/`operation` (read at index 0) are not
      `csvData`/`upsert`, the output is empty and nothing is sent. */
  lemma {:induction false} OtherOperationDoesNothing(h: Host)
    requires h.credentials.Some? && !IsUpsert(h)
    ensures Execution(h) == Run(Completed([]), [])
  {
    var steps := Steps(h, h.credentials.value);
    SkippedStepsDoNothing(h.continueOnFail, steps, |h.items|);
  }

  /** One item with its attachment present, whose request succeeds with a
      one-row array: the output is that item's success record, with one row
      affected, and the only request sent is the one built for it. */
  lemma {:induction false} SingleItemScenario(h: Host, response: JVal)
    requires h.credentials.Some? && |h.items| == 1 && IsUpsert(h) && HasBinary(h, 0)
    requires h.transport(0, ItemRequest(h, h.credentials.value, 0)) == Ok(response)
    requires response.JArray? && |response.elems| == 1
    ensures Execution(h) == Run(
      Completed([Record(Upserted(h.param(0).tableName, response, 1), 0)]),
      [Sent(0, ItemRequest(h, h.credentials.value, 0))])
  {
    var cred := h.credentials.value;
    var steps := Steps(h, cred);
    var request := ItemRequest(h, cred, 0);
    assert steps[0] == ProcessItem(h, cred, 0);
    assert steps[0] == Done(request, h.param(0).tableName, response);
    RunStepsNext(h.continueOnFail, steps, 0);
    assert RunSteps(h.continueOnFail, steps, 0) == Run(Completed([]), []);
    assert StepJson(steps[0]) == Upserted(h.param(0).tableName, response, 1);
    var r := Run(Completed([Record(Upserted(h.param(0).tableName, response, 1), 0)]), [Sent(0, request)]);
    var rec := Record(Upserted(h.param(0).tableName, response, 1), 0);
    var noRecords: seq<Record> := [];
    var noneSent: seq<Sent> := [];
    assert noRecords + [rec] == [rec];
    assert noneSent + [Sent(0, request)] == [Sent(0, request)];
    assert Advance(h.continueOnFail, Run(Completed([]), []), 0, steps[0]) == r;
    assert RunSteps(h.continueOnFail, steps, 1) == r;
    assert Execution(h) == RunSteps(h.continueOnFail, steps, 1);
  }
}
