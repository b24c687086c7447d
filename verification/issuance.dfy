/**
 * Bulk issuance: rows are sent to the remote issuing service one at a time,
 * and the batch stops at the first row that fails. The remote call is an
 * oracle from the row's index to the service's answer.
 */
module Issuance {
  import opened Options
  import opened Columns
  import opened BadgeClass

  /** One parsed CSV record: column name to cell text. */
  type Row = map<string, string>

  /** The JSON body of `POST /badges/issue`; an absent key serialises as a missing field. */
  datatype IssueRequest = IssueRequest(recipientEmail: Option<string>, recipientName: Option<string>, badgeClassUrl: Option<string>)

  /** The service's answer: the new badge's id, or the message of the error thrown for this call. */
  datatype IssueResult = Ok(badgeId: string) | Err(message: string)

  /** The remote service as seen by the batch: the answer to the call made for row `i`. */
  type Oracle = nat -> IssueResult

  const BadgeUrlBase := "https://zcertify.zairza.com/badge/"
  const BadgeUrlKey := "badgeUrl"

  /** The TypeError a JavaScript engine (V8's wording) throws for `undefined.replace(...)`. */
  const MissingBadgeClassMessage := "Cannot read properties of undefined (reading 'replace')"

  /** `row[key]`: exact-key lookup, `undefined` when the key is absent. */
  function Lookup(row: Row, key: string): (v: Option<string>)
    ensures v.Some? <==> key in row
    ensures v.Some? ==> v.value == row[key]
  {
    if key in row then Some(row[key]) else None
  }

  /** The request built for a row, by exact column names. */
  function RequestFor(row: Row): IssueRequest {
    IssueRequest(Lookup(row, EmailColumn), Lookup(row, NameColumn), Lookup(row, BadgeClassColumn))
  }

  /**
   * `{...row, "Badge Class": <rewritten>, badgeUrl: <base + id>}`: the input
   * row with its Badge Class rewritten to https and the badge's public URL added.
   */
  function ProcessedRow(row: Row, badgeId: string): Row
    requires BadgeClassColumn in row
  {
    row[BadgeClassColumn := EnsureHttps(row[BadgeClassColumn])][BadgeUrlKey := BadgeUrlBase + badgeId]
  }

  /**
   * The spread keeps every column, rewrites only the Badge Class cell and adds
   * (or overwrites) only `badgeUrl`.
   */
  lemma ProcessedRowContents(row: Row, badgeId: string)
    requires BadgeClassColumn in row
    ensures ProcessedRow(row, badgeId).Keys == row.Keys + {BadgeUrlKey}
    ensures ProcessedRow(row, badgeId)[BadgeClassColumn] == EnsureHttps(row[BadgeClassColumn])
    ensures ProcessedRow(row, badgeId)[BadgeUrlKey] == BadgeUrlBase + badgeId
    ensures forall k :: k in row && k != BadgeClassColumn && k != BadgeUrlKey ==> ProcessedRow(row, badgeId)[k] == row[k]
  {
  }

  /** A row goes through when the service issues a badge and the row has an exact "Badge Class" key. */
  predicate RowSucceeds(row: Row, response: IssueResult) {
    response.Ok? && BadgeClassColumn in row
  }

  datatype RowStep = RowIssued(out: Row) | RowFailed(message: string)

  /**
   * One iteration of the loop body: the issuance call comes first, so its error
   * wins; only after a successful call is the Badge Class looked up, and a
   * missing key then fails the row with the engine's TypeError.
   */
  function StepRow(row: Row, response: IssueResult): (step: RowStep)
    ensures step.RowIssued? <==> RowSucceeds(row, response)
    ensures step.RowIssued? ==> step.out == ProcessedRow(row, response.badgeId)
    ensures response.Err? ==> step == RowFailed(response.message)
    ensures response.Ok? && BadgeClassColumn !in row ==> step == RowFailed(MissingBadgeClassMessage)
  {
    match response
    case Err(message) => RowFailed(message)
    case Ok(badgeId) =>
      if BadgeClassColumn in row then RowIssued(ProcessedRow(row, badgeId))
      else RowFailed(MissingBadgeClassMessage)
  }

  datatype Outcome = Completed(rows: seq<Row>) | Failed(index: nat, message: string)

  /** A batch run: the requests sent, in order, and how the run ended. */
  datatype Batch = Batch(calls: seq<IssueRequest>, outcome: Outcome)

  /**
   * The loop of `processCSVData` from row `start` on: one call per row until a
   * row fails. A completed run has made one call and produced one row per input
   * row; a failed run stopped at a row it had already called for.
   */
  function ProcessFrom(rows: seq<Row>, oracle: Oracle, start: nat): (b: Batch)
    requires start <= |rows|
    decreases |rows| - start
    ensures b.outcome.Completed? ==> |b.calls| == |b.outcome.rows| == |rows| - start
    ensures b.outcome.Failed? ==> start <= b.outcome.index < |rows| && |b.calls| == b.outcome.index - start + 1
  {
    if start == |rows| then Batch([], Completed([]))
    else
      var call := RequestFor(rows[start]);
      match StepRow(rows[start], oracle(start))
      case RowFailed(message) => Batch([call], Failed(start, message))
      case RowIssued(out) =>
        var rest := ProcessFrom(rows, oracle, start + 1);
        var outcome := if rest.outcome.Completed? then Completed([out] + rest.outcome.rows) else rest.outcome;
        Batch([call] + rest.calls, outcome)
  }

  /** The calls made are, in order, the requests for rows `start`, `start + 1`, ... */
  lemma {:induction false} CallsFollowRows(rows: seq<Row>, oracle: Oracle, start: nat)
    requires start <= |rows|
    ensures forall j :: 0 <= j < |ProcessFrom(rows, oracle, start).calls| ==>
      ProcessFrom(rows, oracle, start).calls[j] == RequestFor(rows[start + j])
    decreases |rows| - start
  {
    if start < |rows| && StepRow(rows[start], oracle(start)).RowIssued? {
      CallsFollowRows(rows, oracle, start + 1);
    }
  }

  /** The run completes exactly when every row from `start` on succeeds. */
  lemma {:induction false} CompletesIffAllSucceed(rows: seq<Row>, oracle: Oracle, start: nat)
    requires start <= |rows|
    ensures ProcessFrom(rows, oracle, start).outcome.Completed? <==>
      forall j :: start <= j < |rows| ==> RowSucceeds(rows[j], oracle(j))
    decreases |rows| - start
  {
    if start < |rows| && StepRow(rows[start], oracle(start)).RowIssued? {
      CompletesIffAllSucceed(rows, oracle, start + 1);
    }
  }

  /** A completed run's output row `i - start` is input row `i` processed with its own badge id. */
  lemma {:induction false} CompletedRowsInOrder(rows: seq<Row>, oracle: Oracle, start: nat)
    requires start <= |rows|
    requires ProcessFrom(rows, oracle, start).outcome.Completed?
    ensures forall i :: start <= i < |rows| ==>
      RowSucceeds(rows[i], oracle(i)) &&
      ProcessFrom(rows, oracle, start).outcome.rows[i - start] == ProcessedRow(rows[i], oracle(i).badgeId)
    decreases |rows| - start
  {
    if start < |rows| {
      assert StepRow(rows[start], oracle(start)).RowIssued?;
      CompletedRowsInOrder(rows, oracle, start + 1);
      var out := ProcessFrom(rows, oracle, start).outcome.rows;
      var rest := ProcessFrom(rows, oracle, start + 1).outcome.rows;
      assert out == [ProcessedRow(rows[start], oracle(start).badgeId)] + rest;
    }
  }

  /**
   * A failed run stopped at the first failing row: every earlier row succeeded,
   * and the failure message is that row's.
   */
  lemma {:induction false} FailsAtFirstFailure(rows: seq<Row>, oracle: Oracle, start: nat)
    requires start <= |rows|
    requires ProcessFrom(rows, oracle, start).outcome.Failed?
    ensures var k := ProcessFrom(rows, oracle, start).outcome.index;
      && (forall j :: start <= j < k ==> RowSucceeds(rows[j], oracle(j)))
      && !RowSucceeds(rows[k], oracle(k))
      && ProcessFrom(rows, oracle, start).outcome.message == StepRow(rows[k], oracle(k)).message
    decreases |rows| - start
  {
    if StepRow(rows[start], oracle(start)).RowIssued? {
      FailsAtFirstFailure(rows, oracle, start + 1);
    }
  }

  function Process(rows: seq<Row>, oracle: Oracle): Batch {
    ProcessFrom(rows, oracle, 0)
  }

  /**
   * Rows after the failing one are never issued: neither their contents nor the
   * service's answers for them can change the run in any way.
   */
  lemma {:induction false} NothingAfterFailureMatters(rows: seq<Row>, rows': seq<Row>, oracle: Oracle, oracle': Oracle, start: nat)
    requires start <= |rows| && start <= |rows'|
    requires ProcessFrom(rows, oracle, start).outcome.Failed?
    requires ProcessFrom(rows, oracle, start).outcome.index < |rows'|
    requires forall j :: start <= j <= ProcessFrom(rows, oracle, start).outcome.index ==> rows'[j] == rows[j] && oracle'(j) == oracle(j)
    ensures ProcessFrom(rows', oracle', start) == ProcessFrom(rows, oracle, start)
    decreases |rows| - start
  {
    var k := ProcessFrom(rows, oracle, start).outcome.index;
    assert rows'[start] == rows[start] && oracle'(start) == oracle(start);
    if k > start {
      NothingAfterFailureMatters(rows, rows', oracle, oracle', start + 1);
    }
  }

  /**
   * A run depends on the service only through its answers for the rows'
   * indices: what it would answer beyond the last row is irrelevant.
   */
  lemma {:induction false} RunDependsOnAnswersForRowsOnly(rows: seq<Row>, oracle: Oracle, oracle': Oracle, start: nat)
    requires start <= |rows|
    requires forall j :: start <= j < |rows| ==> oracle'(j) == oracle(j)
    ensures ProcessFrom(rows, oracle', start) == ProcessFrom(rows, oracle, start)
    decreases |rows| - start
  {
    if start < |rows| {
      RunDependsOnAnswersForRowsOnly(rows, oracle, oracle', start + 1);
    }
  }
}
