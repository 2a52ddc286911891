# Gmail label to spreadsheet: a verified model of the decision logic

The script `gmail.py` copies every message under the Gmail label `internships` into a
Google Sheet. It does this in five steps:

- It resolves the label name to the label's id.
- It lists every message id under the label, following the page tokens.
- It fetches each message and builds a row from it: the subject, the sender and a
  plain-text body.
- It skips a message whose fetch raises an API error.
- It appends all rows in one write, and makes no write when there are no rows.

This project models that decision logic in Dafny and proves what each step
guarantees. The remote services appear as input data:
- the label list;
- the pages the list call returns;
- a function from message id to fetch result.

Base64 decoding (`decode_part`) and the regular-expression rewrites of the
script's own `strip_html` are the two uninterpreted functions of a `Codec`. Only the
final `strip()` of `strip_html` is modelled.

Modules, one per component of the script:

- `Wrappers`: `Option`, for keys that may be missing.
- `Text`: the `str` operations the script uses: `strip()`, ASCII `lower()`, and the
  truth value of an optional string.
- `Labels`: `get_label_id`.
- `Listing`: `list_message_ids` as a loop over the pages the service returns.
- `Headers`: `get_header`.
- `Mime`: `extract_plain_text_from_payload`. `BodyText` is the declarative
  specification. The methods `ExtractPlainText` and `WalkParts` are the recursive
  walk with its loop and its two candidates. `ExtractPlainText` is proved equal to
  `BodyText`, and `WalkParts` to `PartsText`, the children's answer.
- `Fields`: `fetch_message_fields`.
- `Batch`: the row-collecting loop of `main`, the empty-batch guard of
  `append_rows_to_sheet`, and `main` itself.

Three details of the body walk follow the code exactly:

- A node's children are walked when it has a `parts` key, whatever its media type.
- Only `multipart/` type children are recursed into. The first of them with
  non-empty text is returned at once, ahead of every text/plain or text/html
  sibling, whether that sibling comes before it or after it.
- The candidates are assigned with `new or old` (gmail.py:97, 99). So the last
  non-empty text/plain sibling wins, not the first, and the same holds for text/html.

Two further facts about the code shape the model:

- Undecodable bytes are dropped (`errors="ignore"`, gmail.py:59). The decoding itself
  is uninterpreted in the model.
- The snippet is stripped before it is used (gmail.py:118).

## Model

| member | source | states |
|---|---|---|
| Labels.GetLabelId | gmail.py:29-35 | the scan for a label by exact name; it has no `ensures` of its own, and `GetLabelIdFirstMatch` and `GetLabelIdNoMatch` describe its result |
| Labels.GetLabelIdFirstMatch | gmail.py:29-34 | the result is the id of the first label whose name equals the query exactly (case-sensitive); a matching label without an id gives `None` |
| Labels.GetLabelIdNoMatch | gmail.py:32-35 | when no label has that name the result is `None` |
| Listing.FirstEnd | gmail.py:46-48 | the loop stops at the first response whose `nextPageToken` is absent or empty; every earlier response had a truthy token |
| Listing.ListMessageIds | gmail.py:37-49 | the ids returned are the concatenation, in order, of the id lists of every response up to and including the first one without a truthy token |
| Listing.Continues | gmail.py:46-47 | the `if not page_token` test: a response continues the listing exactly when its token is truthy; it has no `ensures` of its own, and `FirstEnd` and `ListMessageIds` use it |
| Listing.Flatten | gmail.py:39-45 | the `ids` list the loop builds: every page's ids, page after page, in order; it has no `ensures` of its own, and `FlattenAppend`, `PageInFlatten` and `ListingCovers` describe it |
| Listing.FlattenAppend | gmail.py:45 | extending the id list page by page concatenates the pages' lists |
| Listing.PageInFlatten | gmail.py:45 | the ids of the k-th page occupy, in order, the positions right after the ids of the earlier pages: none are skipped, reordered or deduplicated |
| Listing.ListingCovers | gmail.py:39-49 | the listing holds exactly as many ids as the pages up to the stopping page, each page's ids at its offset; later pages contribute nothing |
| Headers.NameMatches | gmail.py:53 | the name test: the header's name (`""` when missing) equals the query after lower-casing; it has no `ensures` of its own, and `GetHeaderIgnoresCase` states its consequence |
| Headers.GetHeader | gmail.py:51-55 | the scan for a header by name; it has no `ensures` of its own, and `GetHeaderFirstMatch`, `GetHeaderNoMatch` and `GetHeaderIgnoresCase` describe its result |
| Headers.GetHeaderFirstMatch | gmail.py:51-54 | the result is the value of the first header whose name equals the query ignoring case, and `""` when that header has no value |
| Headers.GetHeaderNoMatch | gmail.py:51-55 | without a header of that name the result is `""` |
| Headers.GetHeaderIgnoresCase | gmail.py:53 | two queries that differ only in letter case find the same header |
| Headers.UpperCaseSubjectFound | gmail.py:51-55 | a header spelt `SUBJECT` at any position, with no earlier header matching `Subject`, answers a lookup for `Subject` with its value |
| Mime.HasData | gmail.py:79-98 | the `and data` truth tests at gmail.py:79, 82, 96 and 98: the body data is present and non-empty; it has no `ensures` of its own |
| Mime.IsMultipart | gmail.py:90-91 | `mt.startswith("multipart/")`, with a missing type read as `""`; it has no `ensures` of its own, and `ChildAt` shows that such a child contributes no plain or HTML candidate |
| Mime.FirstNonEmpty | gmail.py:89-95 | the early return of the first nested `multipart/` body that is non-empty; its `ensures` says the result is `""` exactly when every entry is `""`, and `FirstNonEmptyAt` fixes which entry it is |
| Mime.LastNonEmpty | gmail.py:97-99 | the fold of `new or old`: the last non-empty entry; its `ensures` says the result is `""` exactly when every entry is `""`, and `CandidateStep` and `LastNonEmptyAt` fix which entry it is |
| Mime.StripHtml | gmail.py:61-67 | the HTML rendering has no surrounding whitespace |
| Mime.PlainText | gmail.py:96-97 | a child contributes a plain candidate only if it is text/plain with truthy data; the candidate is trimmed |
| Mime.HtmlText | gmail.py:98-99 | a child contributes an HTML candidate only if it is text/html with truthy data; the candidate is trimmed |
| Mime.BodyText | gmail.py:69-106 | the extracted body never has leading or trailing whitespace |
| Mime.PartsText | gmail.py:86-104 | the answer of a node's children never has leading or trailing whitespace |
| Mime.ExtractPlainText | gmail.py:69-106 | the recursive walk returns exactly `BodyText` of the payload |
| Mime.WalkParts | gmail.py:86-106 | the loop over `parts`, with its early return and its two candidates, returns exactly the children's answer `PartsText` |
| Mime.CandidateStep | gmail.py:97-99 | `candidate = new or candidate`: a later non-empty value replaces the candidate, an empty one leaves it unchanged |
| Mime.TextLeafIsTerminal | gmail.py:79-83 | a text/plain node with data gives its stripped decoded text and a text/html node with data its HTML rendering, whatever `parts` it also has |
| Mime.NestedMultipartWins | gmail.py:89-95 | the first `multipart/` child with non-empty text is the result, whatever text/plain or text/html siblings stand before or after it |
| Mime.LastPlainSiblingWins | gmail.py:96-102 | with no nested multipart text, the last non-empty text/plain child is the result, wherever text/html children stand |
| Mime.LastHtmlSiblingWins | gmail.py:98-104 | with no nested multipart text and no non-empty text/plain child, the last non-empty text/html child is the result |
| Mime.NoReachableTextGivesEmpty | gmail.py:75-106 | with no text/plain or text/html part with data at the top or under `multipart/` nodes, the result is `""` |
| Fields.SnippetText | gmail.py:118 | the snippet fallback is the trimmed snippet, `""` without one |
| Fields.FieldsOf | gmail.py:108-123 | subject and sender come from the `Subject` and `From` headers; the body is trimmed; it is the extracted text when there is any (the second `strip()` changes nothing), otherwise the trimmed snippet |
| Fields.FetchMessageFields | gmail.py:108-123 | builds exactly the row `FieldsOf` describes |
| Fields.EmptyBody | gmail.py:116-118 | the body is `""` exactly when the walk finds no text and the snippet is missing or all whitespace |
| Fields.SnippetFallback | gmail.py:116-118 | a message with no reachable text/plain or text/html part gets its trimmed snippet as body, and `""` when it has no snippet |
| Batch.RowsFor | gmail.py:148-154 | the reference definition of the rows: one row per id whose fetch succeeded, in listing order; it has no `ensures` of its own, and `RowsAppend`, `EachIdOnce`, `FailureIsolated` and `AllFetchedRowsInOrder` describe it |
| Batch.SkippedIds | gmail.py:148-154 | the reference definition of the skipped ids: the ids whose fetch raised an API error, in listing order; it has no `ensures` of its own, and `RowsAppend`, `EachIdOnce` and `FailureIsolated` describe it |
| Batch.CollectRows | gmail.py:148-154 | the loop yields the rows of the fetched ids in listing order, and the failed ids in order |
| Batch.RowsAppend | gmail.py:149-152 | the rows of a concatenation of id lists are the concatenation of their rows, and likewise for the skipped ids |
| Batch.EachIdOnce | gmail.py:149-154 | every listed id yields exactly one row or exactly one skip |
| Batch.FailureIsolated | gmail.py:150-154 | a failed id leaves no row and no gap, and the ids after it are still processed |
| Batch.AllFetchedRowsInOrder | gmail.py:148-152 | when every fetch succeeds, there is one row per id, and the i-th row comes from the i-th id |
| Batch.SheetWrite | gmail.py:125-135 | no write happens when there are no rows; otherwise one write carries all rows in order |
| Batch.Run | gmail.py:137-157 | when the label's id is absent or empty the run aborts; otherwise it writes `SheetWrite` of the rows of the listed ids and reports the skipped ids |

## Left out

- Authentication and service construction (gmail.py:19-27) are not modelled. Every
  `.execute()` call is replaced by input data: the label list, the list pages (the
  i-th request is answered by the i-th page) and a fetch function from id to
  message or API error.
- `decode_part` and the regular-expression rewrites of `strip_html` are the
  uninterpreted functions of `Mime.Codec`. Only the final `strip()` of `strip_html`
  is modelled.
- Headers.NameMatches: lower-cases ASCII letters only. Python's `str.lower()` also
  folds non-ASCII letters.
- Listing.ListMessageIds: requires that some response ends the listing. A service
  that hands out tokens forever makes the script loop forever, which is not
  modelled. The token's value is not modelled either; only its truth value is.
- Batch.Run: failures other than an API error on a fetch are not modelled. In the
  script they escape the per-message `except HttpError` and end the run. Examples
  are a malformed base64 body, or a list entry without an `id`.
- The error text of a skipped message, the console output, and the constants
  `SCOPES`, `SPREADSHEET_ID` and `SHEET_RANGE` are not modelled (gmail.py:10-17,
  146, 154, 157). The append options `RAW` and `INSERT_ROWS` are also left out.
  The write is modelled as the rows it carries.
- The commented-out truncation of the body to 5000 characters (gmail.py:121) is
  not active code and is not modelled.
- `Fields.Message` keeps the headers next to the payload, while the script reads
  them from inside it (gmail.py:111-112). A missing payload, body or `parts` key is
  modelled as an empty value: no headers, no data, no children.
- Batch.CollectRows: `fetch` is a function of the id, so an id listed twice gets the
  same outcome both times. The script fetches each copy separately, and one copy can fail
  while the other succeeds. No lemma here depends on ids being distinct.
