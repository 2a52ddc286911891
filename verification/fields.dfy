/** Assembling one output row from a fetched message (`fetch_message_fields`). */
module Fields {
  import opened Wrappers
  import opened Text
  import opened Headers
  import opened Mime

  /** A message as the `get` call returns it in full format: the payload's headers, the
      payload tree (an absent payload is a node with no type, data or parts) and the
      preview snippet. */
  datatype Message = Message(headers: seq<Header>, payload: Part, snippet: Option<string>)

  /** One spreadsheet row: subject, sender, body. */
  datatype Row = Row(subject: string, sender: string, body: string)

  /** `(msg.get("snippet") or "").strip()`. */
  function SnippetText(m: Message): (r: string)
    ensures IsTrimmed(r)
  {
    Strip(m.snippet.GetOr(""))
  }

  /**
   * The row for a message. Subject and sender come from a case-insensitive header
   * lookup. The body is the extracted text when there is any, unchanged by the second
   * `strip()`, and otherwise the trimmed snippet; either way it is trimmed.
   */
  function FieldsOf(m: Message, codec: Codec): (row: Row)
    ensures row.subject == GetHeader(m.headers, "Subject")
    ensures row.sender == GetHeader(m.headers, "From")
    ensures IsTrimmed(row.body)
    ensures BodyText(m.payload, codec) != "" ==> row.body == BodyText(m.payload, codec)
    ensures BodyText(m.payload, codec) == "" ==> row.body == SnippetText(m)
  {
    var text := BodyText(m.payload, codec);
    StripKeepsTrimmed(text);
    var body := Strip(text);
    assert body == text;
    Row(GetHeader(m.headers, "Subject"), GetHeader(m.headers, "From"),
        if body != "" then body else SnippetText(m))
  }

  method FetchMessageFields(m: Message, codec: Codec) returns (row: Row)
    ensures row == FieldsOf(m, codec)
  {
    var subject := GetHeader(m.headers, "Subject");
    var sender := GetHeader(m.headers, "From");
    var bodyText := ExtractPlainText(m.payload, codec);
    bodyText := Strip(bodyText);
    if bodyText == "" {
      bodyText := Strip(m.snippet.GetOr(""));
    }
    row := Row(subject, sender, bodyText);
  }

  /** The row's body is empty exactly when the walk finds no text and the snippet is
      missing or all whitespace. */
  lemma EmptyBody(m: Message, codec: Codec)
    ensures FieldsOf(m, codec).body == ""
            <==> BodyText(m.payload, codec) == "" && AllSpace(m.snippet.GetOr(""))
  {
    var row, text, snippet := FieldsOf(m, codec), BodyText(m.payload, codec), m.snippet.GetOr("");
    if text == "" {
      assert row.body == Strip(snippet);
      StripEmptyIffAllSpace(snippet);
      assert row.body == "" <==> AllSpace(snippet);
    } else {
      assert row.body == text;
    }
  }

  /** A message with no text/plain or text/html part with data, at the top or under
      `multipart/` type nodes, gets its trimmed snippet as body (`""` without a snippet). */
  lemma SnippetFallback(m: Message, codec: Codec)
    requires !HasReachableText(m.payload)
    ensures FieldsOf(m, codec).body == SnippetText(m)
    ensures m.snippet == None ==> FieldsOf(m, codec).body == ""
  {
    NoReachableTextGivesEmpty(m.payload, codec);
  }
}
