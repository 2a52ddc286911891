/**
 * The run as a whole (`main`): resolve the label, list its messages, build a row per
 * message that could be fetched, and append the rows in one write
 * (`append_rows_to_sheet`).
 */
module Batch {
  import opened Wrappers
  import opened Text
  import opened Labels
  import opened Listing
  import opened Mime
  import opened Fields

  /** The label the script scans. */
  const LabelName := "internships"

  /** What fetching one message id gives: the message, or an API error. */
  datatype FetchResult = Fetched(message: Message) | ApiError(detail: string)

  /** How a run ends: aborted because the label is missing, or completed with the write it
      requested (`None` when it made no write) and the ids it skipped. */
  datatype RunOutcome = LabelNotFound | Completed(write: Option<seq<Row>>, skipped: seq<string>)

  /** The rows `rowOf` builds from the ids that were fetched, in listing order. */
  function RowsFor(ids: seq<string>, fetch: string -> FetchResult, rowOf: Message -> Row): (rows: seq<Row>) {
    if ids == [] then []
    else
      var last := ids[|ids| - 1];
      RowsFor(ids[..|ids| - 1], fetch, rowOf)
        + match fetch(last) {
            case Fetched(m) => [rowOf(m)]
            case ApiError(_) => []
          }
  }

  /** The row builder of the script: `fetch_message_fields` on the fetched message. */
  function FieldsWith(codec: Codec): (rowOf: Message -> Row) {
    m => FieldsOf(m, codec)
  }

  /** The ids whose fetch failed, in listing order. */
  function SkippedIds(ids: seq<string>, fetch: string -> FetchResult): (skipped: seq<string>) {
    if ids == [] then []
    else
      var last := ids[|ids| - 1];
      SkippedIds(ids[..|ids| - 1], fetch) + if fetch(last).ApiError? then [last] else []
  }

  /** The loop of `main`: one fetch per id; a failure is skipped and the loop goes on. */
  method CollectRows(ids: seq<string>, fetch: string -> FetchResult, codec: Codec)
    returns (rows: seq<Row>, skipped: seq<string>)
    ensures rows == RowsFor(ids, fetch, FieldsWith(codec))
    ensures skipped == SkippedIds(ids, fetch)
  {
    rows, skipped := [], [];
    for i := 0 to |ids|
      invariant rows == RowsFor(ids[..i], fetch, FieldsWith(codec))
      invariant skipped == SkippedIds(ids[..i], fetch)
    {
      var mid := ids[i];
      assert ids[..i + 1][..i] == ids[..i];
      match fetch(mid) {
        case Fetched(m) =>
          var row := FetchMessageFields(m, codec);
          rows := rows + [row];
        case ApiError(_) =>
          skipped := skipped + [mid];
      }
    }
    assert ids[..|ids|] == ids;
  }

  /** `append_rows_to_sheet`: one write holding every row, in order, or no write at all
      when there are no rows. */
  function SheetWrite(rows: seq<Row>): (w: Option<seq<Row>>)
    ensures w == None <==> rows == []
    ensures w.Some? ==> w.value == rows
  {
    if rows == [] then None else Some(rows)
  }

  /** `main`: the pages the service returns for a label id are `listPages(id)`, and the
      result of fetching a message id is `fetch(id)`. */
  method Run(labels: seq<Label>, listPages: string -> seq<Page>, fetch: string -> FetchResult, codec: Codec)
    returns (outcome: RunOutcome)
    requires Truthy(GetLabelId(labels, LabelName)) ==> Ends(listPages(GetLabelId(labels, LabelName).value))
    ensures !Truthy(GetLabelId(labels, LabelName)) ==> outcome == LabelNotFound
    ensures Truthy(GetLabelId(labels, LabelName)) ==>
              var pages := listPages(GetLabelId(labels, LabelName).value);
              var ids := Flatten(pages[..FirstEnd(pages) + 1]);
              outcome == Completed(SheetWrite(RowsFor(ids, fetch, FieldsWith(codec))), SkippedIds(ids, fetch))
  {
    var labelId := GetLabelId(labels, LabelName);
    if !Truthy(labelId) {
      return LabelNotFound;
    }
    var msgIds := ListMessageIds(listPages(labelId.value));
    var rows, skipped := CollectRows(msgIds, fetch, codec);
    outcome := Completed(SheetWrite(rows), skipped);
  }

  lemma {:induction false} RowsAppend(a: seq<string>, b: seq<string>, fetch: string -> FetchResult, rowOf: Message -> Row)
    ensures RowsFor(a + b, fetch, rowOf) == RowsFor(a, fetch, rowOf) + RowsFor(b, fetch, rowOf)
    ensures SkippedIds(a + b, fetch) == SkippedIds(a, fetch) + SkippedIds(b, fetch)
    decreases |b|
  {
    if b == [] {
      assert a + b == a;
    } else {
      var b' := b[..|b| - 1];
      assert (a + b)[..|a + b| - 1] == a + b';
      RowsAppend(a, b', fetch, rowOf);
    }
  }

  /** Every id is handled exactly once: it yields a row or it is skipped. */
  lemma {:induction false} EachIdOnce(ids: seq<string>, fetch: string -> FetchResult, rowOf: Message -> Row)
    ensures |RowsFor(ids, fetch, rowOf)| + |SkippedIds(ids, fetch)| == |ids|
  {
    if ids != [] {
      EachIdOnce(ids[..|ids| - 1], fetch, rowOf);
    }
  }

  /** A failed id leaves no row and no gap, and the ids after it are still processed. */
  lemma FailureIsolated(before: seq<string>, bad: string, after: seq<string>, fetch: string -> FetchResult, rowOf: Message -> Row)
    requires fetch(bad).ApiError?
    ensures RowsFor(before + [bad] + after, fetch, rowOf)
            == RowsFor(before, fetch, rowOf) + RowsFor(after, fetch, rowOf)
    ensures SkippedIds(before + [bad] + after, fetch)
            == SkippedIds(before, fetch) + [bad] + SkippedIds(after, fetch)
  {
    RowsAppend(before + [bad], after, fetch, rowOf);
    RowsAppend(before, [bad], fetch, rowOf);
    assert [bad][..0] == [];
  }

  /** When every fetch succeeds there is one row per id, the i-th row from the i-th id. */
  lemma {:induction false} AllFetchedRowsInOrder(ids: seq<string>, fetch: string -> FetchResult, rowOf: Message -> Row)
    requires forall i :: 0 <= i < |ids| ==> fetch(ids[i]).Fetched?
    ensures |RowsFor(ids, fetch, rowOf)| == |ids|
    ensures forall i :: 0 <= i < |ids| ==> RowsFor(ids, fetch, rowOf)[i] == rowOf(fetch(ids[i]).message)
  {
    if ids != [] {
      AllFetchedRowsInOrder(ids[..|ids| - 1], fetch, rowOf);
    }
  }
}
