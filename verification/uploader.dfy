/**
 * The admin page's drop handler: the file-type gate, the checks on the parser's
 * output, the batch, and the shape of the file offered for download. The CSV
 * parser is not modelled; its `errors`, `meta.fields` and `data` are inputs.
 */
module Uploader {
  import opened Options
  import opened AsciiText
  import opened FileType
  import opened Columns
  import opened BadgeClass
  import opened Issuance

  /** What the parser reports: error messages, the header row (possibly undefined) and the records (possibly undefined). */
  datatype ParseResult = ParseResult(errors: seq<string>, fields: Option<seq<string>>, data: Option<seq<Row>>)

  /** The counts shown under "Processing Results". */
  datatype Summary = Summary(totalRecords: nat, badgesCreated: nat)

  /**
   * How one drop ends: rejected before any issuance call, stalled because no
   * file was accepted, aborted by the row at `|calls| - 1`, or done with the
   * rows of the downloaded file.
   */
  datatype Upload =
    | Rejected(reason: string)
    | Stalled
    | Aborted(rowName: string, message: string, calls: seq<IssueRequest>)
    | Done(fields: seq<string>, rows: seq<Row>, summary: Summary, calls: seq<IssueRequest>)

  const WrongTypeMessage := "Please upload a CSV file"
  const ParseErrorPrefix := "Error parsing CSV file: "
  const NoDataMessage := "Invalid CSV format: No data found"
  const MissingColumnsMessage := "CSV must contain columns: Badge Class, Name, Email Address"
  const RowErrorPrefix := "Error processing row for "
  const CsvErrorPrefix := "Error processing CSV: "
  const BadgeUrlColumn := "Badge URL"

  /** `results.meta.fields || []`. */
  function Headers(parsed: ParseResult): seq<string> {
    parsed.fields.GetOr([])
  }

  /** The reason the parser's output stops the handler before the batch, checked in the handler's order, if any. */
  function ParseRejection(parsed: ParseResult): Option<string> {
    if |parsed.errors| > 0 then Some(ParseErrorPrefix + parsed.errors[0])
    else if parsed.data.None? || |parsed.data.value| == 0 then Some(NoDataMessage)
    else if !HasRequiredColumns(Headers(parsed)) then Some(MissingColumnsMessage)
    else None
  }

  /** `${row["Name"]}`: the cell, or the text "undefined" when the exact key is absent. */
  function NameText(row: Row): string {
    Lookup(row, NameColumn).GetOr("undefined")
  }

  /**
   * The records of the downloaded file: each processed row gains one column,
   * "Badge URL", holding its `badgeUrl`; every other column keeps its value.
   */
  function OutputRows(rows: seq<Row>): (out: seq<Row>)
    requires forall i :: 0 <= i < |rows| ==> BadgeUrlKey in rows[i]
    ensures |out| == |rows|
    ensures forall i :: 0 <= i < |rows| ==>
      && out[i].Keys == rows[i].Keys + {BadgeUrlColumn}
      && out[i][BadgeUrlColumn] == rows[i][BadgeUrlKey]
      && forall k :: k in rows[i] && k != BadgeUrlColumn ==> out[i][k] == rows[i][k]
  {
    seq(|rows|, i requires 0 <= i < |rows| => rows[i][BadgeUrlColumn := rows[i][BadgeUrlKey]])
  }

  /**
   * The batch and what follows it, once the checks have passed: the service has
   * been called for a prefix of the rows, in order; the run either aborted at
   * the last row called, naming it, or produced one output row per input row,
   * the header row extended by "Badge URL", and equal record and badge counts.
   */
  function ProcessRecords(headers: seq<string>, data: seq<Row>, oracle: Oracle): (u: Upload)
    requires data != []
    ensures u.Aborted? || u.Done?
    ensures 1 <= |u.calls| <= |data|
    ensures forall j :: 0 <= j < |u.calls| ==> u.calls[j] == RequestFor(data[j])
    ensures u.Aborted? ==> u.rowName == NameText(data[|u.calls| - 1])
    ensures u.Done? ==>
      && u.fields == headers + [BadgeUrlColumn]
      && |u.rows| == |u.calls| == |data|
      && u.summary == Summary(|data|, |data|)
  {
    var batch := Process(data, oracle);
    CallsFollowRows(data, oracle, 0);
    match batch.outcome
    case Failed(k, message) => Aborted(NameText(data[k]), message, batch.calls)
    case Completed(rows) =>
      CompletedRowsCarryBadgeUrl(data, oracle);
      Done(headers + [BadgeUrlColumn], OutputRows(rows), Summary(|rows|, |rows|), batch.calls)
  }

  lemma CompletedRowsCarryBadgeUrl(data: seq<Row>, oracle: Oracle)
    requires Process(data, oracle).outcome.Completed?
    ensures forall i :: 0 <= i < |Process(data, oracle).outcome.rows| ==> BadgeUrlKey in Process(data, oracle).outcome.rows[i]
  {
    CompletedRowsInOrder(data, oracle, 0);
    forall i | 0 <= i < |data|
      ensures BadgeUrlKey in Process(data, oracle).outcome.rows[i]
    {
      ProcessedRowContents(data[i], oracle(i).badgeId);
    }
  }

  /**
   * The whole drop handler. With no accepted file the type gate lets the drop
   * through, and the parser, handed `undefined`, throws before its completion
   * callback runs: nothing more happens. Otherwise the drop is rejected, with
   * no issuance call, exactly when one of the checks before the batch fails.
   */
  function HandleUpload(file: Option<string>, parsed: ParseResult, oracle: Oracle): (u: Upload)
    ensures u.Stalled? <==> file.None?
    ensures u.Rejected? <==>
      || !Admits(file)
      || (file.Some? && (|parsed.errors| > 0 || parsed.data.None? || |parsed.data.value| == 0 || !HasRequiredColumns(Headers(parsed))))
    ensures u.Aborted? || u.Done? ==>
      && parsed.data.Some? && parsed.data.value != []
      && u == ProcessRecords(Headers(parsed), parsed.data.value, oracle)
  {
    if !Admits(file) then Rejected(WrongTypeMessage)
    else if file.None? then Stalled
    else match ParseRejection(parsed)
      case Some(reason) => Rejected(reason)
      case None => ProcessRecords(Headers(parsed), parsed.data.value, oracle)
  }

  /** The issuance calls a drop made: none when it was rejected or stalled. */
  function CallsMade(u: Upload): seq<IssueRequest> {
    match u
    case Rejected(_) => []
    case Stalled => []
    case Aborted(_, _, calls) => calls
    case Done(_, _, _, calls) => calls
  }

  /**
   * Each early exit has its own message, and the checks run in order: file
   * type, then (once a file was accepted) parse errors, reporting the first,
   * then empty data, then columns. A drop that ends early makes no call.
   */
  lemma RejectionReasons(file: Option<string>, parsed: ParseResult, oracle: Oracle)
    ensures var u := HandleUpload(file, parsed, oracle);
      && (!Admits(file) ==> u == Rejected(WrongTypeMessage))
      && (file.None? ==> u == Stalled)
      && (Admits(file) && file.Some? && |parsed.errors| > 0 ==> u == Rejected(ParseErrorPrefix + parsed.errors[0]))
      && (Admits(file) && file.Some? && parsed.errors == [] && (parsed.data.None? || parsed.data.value == []) ==> u == Rejected(NoDataMessage))
      && ((Admits(file) && file.Some? && parsed.errors == [] && parsed.data.Some? && parsed.data.value != [] && !HasRequiredColumns(Headers(parsed)))
            ==> u == Rejected(MissingColumnsMessage))
      && (u.Rejected? || u.Stalled? ==> CallsMade(u) == [])
  {
  }

  /**
   * A drop completes exactly when it passes the checks and every row succeeds;
   * it aborts at the first failing row, every earlier row having gone through,
   * with that row's failure message.
   */
  lemma OutcomeFollowsFirstFailure(headers: seq<string>, data: seq<Row>, oracle: Oracle)
    requires data != []
    ensures var u := ProcessRecords(headers, data, oracle);
      && (u.Done? <==> forall j :: 0 <= j < |data| ==> RowSucceeds(data[j], oracle(j)))
      && (u.Aborted? ==>
            var k := |u.calls| - 1;
            && (forall j :: 0 <= j < k ==> RowSucceeds(data[j], oracle(j)))
            && !RowSucceeds(data[k], oracle(k))
            && u.message == StepRow(data[k], oracle(k)).message)
  {
    CompletesIffAllSucceed(data, oracle, 0);
    if Process(data, oracle).outcome.Failed? {
      FailsAtFirstFailure(data, oracle, 0);
    }
  }

  /**
   * Row `i` of the downloaded data is input row `i` with every column kept,
   * "Badge Class" rewritten to https, and both `badgeUrl` and "Badge URL" set to
   * the public URL of the badge issued for it.
   */
  lemma DoneRowContents(headers: seq<string>, data: seq<Row>, oracle: Oracle, i: nat)
    requires data != []
    requires ProcessRecords(headers, data, oracle).Done?
    requires i < |data|
    ensures var out := ProcessRecords(headers, data, oracle).rows[i];
      var row := data[i];
      && oracle(i).Ok? && BadgeClassColumn in row
      && out.Keys == row.Keys + {BadgeUrlKey, BadgeUrlColumn}
      && out[BadgeClassColumn] == EnsureHttps(row[BadgeClassColumn])
      && out[BadgeUrlKey] == BadgeUrlBase + oracle(i).badgeId
      && out[BadgeUrlColumn] == BadgeUrlBase + oracle(i).badgeId
      && forall k :: k in row && k != BadgeClassColumn && k != BadgeUrlKey && k != BadgeUrlColumn ==> out[k] == row[k]
  {
    CompletedRowsInOrder(data, oracle, 0);
    ProcessedRowContents(data[i], oracle(i).badgeId);
  }

  /** The cells written for one record under `fields`; a key the record lacks gives an empty cell. Quoting is not modelled. */
  function Record(fields: seq<string>, row: Row): seq<string> {
    seq(|fields|, j requires 0 <= j < |fields| => Lookup(row, fields[j]).GetOr(""))
  }

  /**
   * Each downloaded record has one cell more than the input header row: the
   * input's cells under their own headers (the Badge Class one rewritten), then
   * the badge's public URL.
   */
  lemma DoneRecords(headers: seq<string>, data: seq<Row>, oracle: Oracle, i: nat)
    requires data != []
    requires ProcessRecords(headers, data, oracle).Done?
    requires i < |data|
    ensures var cells := Record(headers + [BadgeUrlColumn], ProcessRecords(headers, data, oracle).rows[i]);
      && oracle(i).Ok? && BadgeClassColumn in data[i]
      && |cells| == |headers| + 1
      && cells[|headers|] == BadgeUrlBase + oracle(i).badgeId
      && (forall j :: 0 <= j < |headers| && headers[j] != BadgeClassColumn && headers[j] != BadgeUrlKey && headers[j] != BadgeUrlColumn ==>
            cells[j] == Lookup(data[i], headers[j]).GetOr(""))
      && (forall j :: 0 <= j < |headers| && headers[j] == BadgeClassColumn ==> cells[j] == EnsureHttps(data[i][BadgeClassColumn]))
  {
    DoneRowContents(headers, data, oracle, i);
  }

  /**
   * Validation is lenient but the lookups are exact: when a drop passes every
   * check but its first row lacks the exact "Badge Class" key, that row is still
   * sent, and if the service accepts it the batch aborts on the missing key.
   */
  lemma ExactKeyMissingFailsAfterCall(file: Option<string>, parsed: ParseResult, oracle: Oracle)
    requires file.Some? && Admits(file) && ParseRejection(parsed).None?
    requires BadgeClassColumn !in parsed.data.value[0]
    requires oracle(0).Ok?
    ensures var row := parsed.data.value[0];
      HandleUpload(file, parsed, oracle) == Aborted(NameText(row), MissingBadgeClassMessage, [RequestFor(row)])
  {
  }

  /**
   * A concrete instance: headers that pass only thanks to case folding, so the
   * first row is sent with every field undefined and then fails on the missing
   * "Badge Class" key, after the call, naming the row `undefined`.
   */
  lemma ValidatedFileCanStillFail(pad: string, oracle: Oracle, url: string, name: string, email: string)
    requires AllSpace(pad) && oracle(0).Ok?
    ensures var headers := [pad + "badge class", "NAME" + pad, pad + "email ADDRESS" + pad];
      var row := map[headers[0] := url, headers[1] := name, headers[2] := email];
      var u := HandleUpload(Some("text/csv"), ParseResult([], Some(headers), Some([row])), oracle);
      && HasRequiredColumns(headers)
      && u == Aborted("undefined", MissingBadgeClassMessage, [IssueRequest(None, None, None)])
  {
    var headers := [pad + "badge class", "NAME" + pad, pad + "email ADDRESS" + pad];
    LenientHeadersPass(pad, pad);
    var row := map[headers[0] := url, headers[1] := name, headers[2] := email];
    // Each lenient spelling differs from every required name in its first or
    // second character: whitespace or lower case where the name has a capital.
    assert BadgeClassColumn[0] == 'B' && NameColumn[0] == 'N' && EmailColumn[0] == 'E';
    assert headers[0][0] == (if |pad| == 0 then 'b' else pad[0]);
    assert headers[2][0] == (if |pad| == 0 then 'e' else pad[0]);
    assert headers[1][0] == 'N' && headers[1][1] == 'A' && NameColumn[1] == 'a';
    assert BadgeClassColumn !in row && NameColumn !in row && EmailColumn !in row;
    ExactKeyMissingFailsAfterCall(Some("text/csv"), ParseResult([], Some(headers), Some([row])), oracle);
  }

  /** The `setError` calls a drop makes after clearing the error, in order. */
  function ErrorTrail(u: Upload): seq<string> {
    match u
    case Rejected(reason) => [reason]
    case Aborted(name, message, _) => [RowErrorPrefix + name + ": " + message, CsvErrorPrefix + message]
    case Stalled => []
    case Done(_, _, _, _) => []
  }

  /**
   * The error left on screen is the last one set. After an abort the message
   * that names the row is set first and then replaced by the outer handler's,
   * which carries only the failure message.
   */
  function DisplayedError(u: Upload): (e: Option<string>)
    ensures e.None? <==> u.Done? || u.Stalled?
    ensures u.Rejected? ==> e == Some(u.reason)
    ensures u.Aborted? ==> e == Some(CsvErrorPrefix + u.message) && ErrorTrail(u)[0] == RowErrorPrefix + u.rowName + ": " + u.message
  {
    var trail := ErrorTrail(u);
    if trail == [] then None else Some(trail[|trail| - 1])
  }
}
