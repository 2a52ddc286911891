/**
 * Choosing a plain-text body from a MIME payload tree
 * (`extract_plain_text_from_payload`). Base64 decoding and the regular-expression
 * rewrites of `strip_html` stay uninterpreted: they are the two functions of a `Codec`.
 * Only the final `strip()` of `strip_html` is modelled.
 */
module Mime {
  import opened Wrappers
  import opened Text

  /**
   * One node of the payload. `data` is the part's `body.data` (absent when the part has
   * no body or the body no data). `hasParts` records whether the node carries a `parts`
   * key at all; `parts` is its list. A node with `hasParts` false may still carry a
   * non-empty `parts`: every definition reads `hasParts` first, so such a list is never
   * consulted and behaves as an absent key.
   */
  datatype Part = Part(mimeType: string, data: Option<string>, hasParts: bool, parts: seq<Part>)

  /**
   * `decode` is `decode_part` (URL-safe base64, then UTF-8 dropping undecodable bytes).
   * `renderHtml` is `strip_html` without its final `strip()`: the four regular-expression
   * rewrites and the collapse of blanks before newlines.
   */
  datatype Codec = Codec(decode: string -> string, renderHtml: string -> string)

  /** The part has a truthy `body.data`. */
  predicate HasData(p: Part) {
    Truthy(p.data)
  }

  predicate IsMultipart(p: Part) {
    "multipart/" <= p.mimeType
  }

  /** A text/plain or text/html part with data: the leaves the walk takes text from. */
  predicate IsTextLeaf(p: Part) {
    (p.mimeType == "text/plain" || p.mimeType == "text/html") && HasData(p)
  }

  /** `strip_html`: the rendered text, trimmed. */
  function StripHtml(codec: Codec, html: string): (r: string)
    ensures IsTrimmed(r)
  {
    Strip(codec.renderHtml(html))
  }

  /** What a text/plain part with data contributes as a plain candidate; `""` for any other part. */
  function PlainText(p: Part, codec: Codec): (r: string)
    ensures IsTrimmed(r)
    ensures r != "" ==> p.mimeType == "text/plain" && HasData(p)
  {
    if p.mimeType == "text/plain" && HasData(p) then Strip(codec.decode(p.data.value)) else ""
  }

  /** What a text/html part with data contributes as an HTML candidate; `""` for any other part. */
  function HtmlText(p: Part, codec: Codec): (r: string)
    ensures IsTrimmed(r)
    ensures r != "" ==> p.mimeType == "text/html" && HasData(p)
  {
    if p.mimeType == "text/html" && HasData(p) then StripHtml(codec, codec.decode(p.data.value)) else ""
  }

  function PlainTexts(parts: seq<Part>, codec: Codec): (r: seq<string>)
    ensures |r| == |parts|
    ensures forall i :: 0 <= i < |r| ==> IsTrimmed(r[i])
  {
    seq(|parts|, i requires 0 <= i < |parts| => PlainText(parts[i], codec))
  }

  function HtmlTexts(parts: seq<Part>, codec: Codec): (r: seq<string>)
    ensures |r| == |parts|
    ensures forall i :: 0 <= i < |r| ==> IsTrimmed(r[i])
  {
    seq(|parts|, i requires 0 <= i < |parts| => HtmlText(parts[i], codec))
  }

  /** The first non-empty string of `ts`, or `""` when all are empty. */
  function FirstNonEmpty(ts: seq<string>): (r: string)
    ensures r == "" <==> forall i :: 0 <= i < |ts| ==> ts[i] == ""
  {
    if ts == [] then "" else if ts[0] != "" then ts[0] else FirstNonEmpty(ts[1..])
  }

  /** The last non-empty string of `ts`, or `""` when all are empty: the value a variable
      holds after `v = t or v` has run over `ts` starting from `""`. */
  function LastNonEmpty(ts: seq<string>): (r: string)
    ensures r == "" <==> forall i :: 0 <= i < |ts| ==> ts[i] == ""
  {
    if ts == [] then ""
    else if ts[|ts| - 1] != "" then ts[|ts| - 1]
    else LastNonEmpty(ts[..|ts| - 1])
  }

  /**
   * The body the walk returns for `p`. A text/plain or text/html node with data is
   * decoded whatever else it holds; otherwise a node with a `parts` key is answered by
   * its children (`PartsText`), and any other node gives `""`. The result never has
   * surrounding whitespace.
   */
  function BodyText(p: Part, codec: Codec): (r: string)
    ensures IsTrimmed(r)
    decreases p, 3
  {
    if p.mimeType == "text/plain" && HasData(p) then PlainText(p, codec)
    else if p.mimeType == "text/html" && HasData(p) then HtmlText(p, codec)
    else if !p.hasParts then ""
    else PartsText(p, codec)
  }

  /**
   * The answer of a node's children: the first `multipart/` type child with non-empty
   * text; failing that the last non-empty text/plain child; failing that the last
   * non-empty text/html child; failing that `""`.
   */
  function PartsText(p: Part, codec: Codec): (r: string)
    ensures IsTrimmed(r)
    decreases p, 2
  {
    ChoicesTrimmed(NestedTexts(p, codec));
    ChoicesTrimmed(PlainTexts(p.parts, codec));
    ChoicesTrimmed(HtmlTexts(p.parts, codec));
    var nested := FirstNonEmpty(NestedTexts(p, codec));
    if nested != "" then nested
    else
      var plain := LastNonEmpty(PlainTexts(p.parts, codec));
      if plain != "" then plain else LastNonEmpty(HtmlTexts(p.parts, codec))
  }

  /** For each child of `p`, the body of that child if it is `multipart/` type, else `""`. */
  function NestedTexts(p: Part, codec: Codec): (r: seq<string>)
    ensures |r| == |p.parts|
    ensures forall i :: 0 <= i < |r| ==> IsTrimmed(r[i])
    decreases p, 1
  {
    seq(|p.parts|, i requires 0 <= i < |p.parts| => NestedText(p.parts[i], codec))
  }

  /** What the i-th child of `p` contributes to each of the three lists the walk consults. */
  lemma ChildAt(p: Part, codec: Codec, i: nat)
    requires i < |p.parts|
    ensures NestedTexts(p, codec)[i] == if IsMultipart(p.parts[i]) then BodyText(p.parts[i], codec) else ""
    ensures PlainTexts(p.parts, codec)[i] == PlainText(p.parts[i], codec)
    ensures HtmlTexts(p.parts, codec)[i] == HtmlText(p.parts[i], codec)
    ensures IsMultipart(p.parts[i]) ==> PlainText(p.parts[i], codec) == "" && HtmlText(p.parts[i], codec) == ""
  {
    if IsMultipart(p.parts[i]) {
      assert p.parts[i].mimeType[0] == 'm';
    }
  }

  function NestedText(child: Part, codec: Codec): (r: string)
    ensures IsTrimmed(r)
    decreases child, 4
  {
    if IsMultipart(child) then BodyText(child, codec) else ""
  }

  /** The walk itself: the same result as `BodyText`. */
  method ExtractPlainText(p: Part, codec: Codec) returns (text: string)
    ensures text == BodyText(p, codec)
    decreases p, 1
  {
    if p.mimeType == "text/plain" && HasData(p) {
      return Strip(codec.decode(p.data.value));
    }
    if p.mimeType == "text/html" && HasData(p) {
      return StripHtml(codec, codec.decode(p.data.value));
    }
    if p.hasParts {
      text := WalkParts(p, codec);
      return;
    }
    return "";
  }

  /** The loop over a node's `parts`: a nested `multipart/` type child with text returns at
      once; otherwise each later non-empty text/plain (text/html) child overwrites the
      plain (HTML) candidate, and the plain candidate is preferred at the end. */
  method WalkParts(p: Part, codec: Codec) returns (text: string)
    ensures text == PartsText(p, codec)
    decreases p, 0
  {
    ghost var nested, plains, htmls := NestedTexts(p, codec), PlainTexts(p.parts, codec), HtmlTexts(p.parts, codec);
    var plainCandidate, htmlCandidate := "", "";
    for i := 0 to |p.parts|
      invariant FirstNonEmpty(nested[..i]) == ""
      invariant plainCandidate == LastNonEmpty(plains[..i])
      invariant htmlCandidate == LastNonEmpty(htmls[..i])
    {
      var part := p.parts[i];
      CandidateStep(plains, i);
      CandidateStep(htmls, i);
      NestedStep(nested, i);
      ChildAt(p, codec, i);
      if IsMultipart(part) {
        var sub := ExtractPlainText(part, codec);
        if sub != "" {
          return sub;
        }
      } else if part.mimeType == "text/plain" && HasData(part) {
        var t := Strip(codec.decode(part.data.value));
        plainCandidate := if t != "" then t else plainCandidate;
      } else if part.mimeType == "text/html" && HasData(part) {
        var t := StripHtml(codec, codec.decode(part.data.value));
        htmlCandidate := if t != "" then t else htmlCandidate;
      }
    }
    assert nested[..|p.parts|] == nested;
    assert plains[..|p.parts|] == plains;
    assert htmls[..|p.parts|] == htmls;
    if plainCandidate != "" {
      return plainCandidate;
    }
    if htmlCandidate != "" {
      return htmlCandidate;
    }
    return "";
  }

  /** Picking a string out of trimmed strings gives a trimmed string. */
  lemma {:induction false} ChoicesTrimmed(ts: seq<string>)
    requires forall i :: 0 <= i < |ts| ==> IsTrimmed(ts[i])
    ensures IsTrimmed(FirstNonEmpty(ts)) && IsTrimmed(LastNonEmpty(ts))
  {
    if ts != [] {
      ChoicesTrimmed(ts[1..]);
      ChoicesTrimmed(ts[..|ts| - 1]);
    }
  }

  /** `candidate = t or candidate`: a later non-empty value replaces the candidate, an
      empty one leaves it as it was. */
  lemma CandidateStep(ts: seq<string>, i: nat)
    requires i < |ts|
    ensures LastNonEmpty(ts[..i + 1]) == if ts[i] != "" then ts[i] else LastNonEmpty(ts[..i])
  {
    assert ts[..i + 1][..i] == ts[..i];
  }

  /** Scanning one more element after a run of empty strings: either it is empty too, or it
      is the first non-empty string of the whole sequence. */
  lemma NestedStep(ts: seq<string>, i: nat)
    requires i < |ts| && FirstNonEmpty(ts[..i]) == ""
    ensures ts[i] == "" ==> FirstNonEmpty(ts[..i + 1]) == ""
    ensures ts[i] != "" ==> FirstNonEmpty(ts) == ts[i]
  {
    var scanned := ts[..i];
    assert forall j :: 0 <= j < i ==> scanned[j] == "";
    assert forall j :: 0 <= j < i ==> ts[j] == "";
    if ts[i] != "" {
      FirstNonEmptyAt(ts, i);
    } else {
      var scanned' := ts[..i + 1];
      assert forall j :: 0 <= j < i + 1 ==> scanned'[j] == "";
    }
  }

  lemma {:induction false} FirstNonEmptyAt(ts: seq<string>, k: nat)
    requires k < |ts| && ts[k] != ""
    requires forall j :: 0 <= j < k ==> ts[j] == ""
    ensures FirstNonEmpty(ts) == ts[k]
  {
    if k > 0 {
      FirstNonEmptyAt(ts[1..], k - 1);
    }
  }

  lemma {:induction false} LastNonEmptyAt(ts: seq<string>, k: nat)
    requires k < |ts| && ts[k] != ""
    requires forall j :: k < j < |ts| ==> ts[j] == ""
    ensures LastNonEmpty(ts) == ts[k]
  {
    if k < |ts| - 1 {
      LastNonEmptyAt(ts[..|ts| - 1], k);
    }
  }

  /** A text/plain or text/html node with data is decoded directly; its `parts`, if any,
      are not looked at. */
  lemma TextLeafIsTerminal(p: Part, codec: Codec)
    ensures p.mimeType == "text/plain" && HasData(p)
            ==> BodyText(p, codec) == Strip(codec.decode(p.data.value))
    ensures p.mimeType == "text/html" && HasData(p)
            ==> BodyText(p, codec) == Strip(codec.renderHtml(codec.decode(p.data.value)))
  {
  }

  /** The first `multipart/` type child with non-empty text is the answer, whatever text/plain
      or text/html siblings stand before or after it. */
  lemma NestedMultipartWins(p: Part, codec: Codec, k: nat)
    requires !IsTextLeaf(p) && p.hasParts
    requires k < |p.parts| && IsMultipart(p.parts[k]) && BodyText(p.parts[k], codec) != ""
    requires forall j :: 0 <= j < k && IsMultipart(p.parts[j]) ==> BodyText(p.parts[j], codec) == ""
    ensures BodyText(p, codec) == BodyText(p.parts[k], codec)
  {
    forall j | 0 <= j <= k {
      ChildAt(p, codec, j);
    }
    FirstNonEmptyAt(NestedTexts(p, codec), k);
  }

  /** When no `multipart/` type child has text, the walk never returns early. */
  lemma NoNestedText(p: Part, codec: Codec)
    requires forall j :: 0 <= j < |p.parts| && IsMultipart(p.parts[j]) ==> BodyText(p.parts[j], codec) == ""
    ensures FirstNonEmpty(NestedTexts(p, codec)) == ""
  {
    var nested := NestedTexts(p, codec);
    forall j | 0 <= j < |nested| ensures nested[j] == "" {
      ChildAt(p, codec, j);
    }
  }

  lemma NoPlainText(parts: seq<Part>, codec: Codec)
    requires forall j :: 0 <= j < |parts| ==> PlainText(parts[j], codec) == ""
    ensures LastNonEmpty(PlainTexts(parts, codec)) == ""
  {
    var plains := PlainTexts(parts, codec);
    assert forall j :: 0 <= j < |plains| ==> plains[j] == "";
  }

  lemma LastPlainAt(parts: seq<Part>, codec: Codec, k: nat)
    requires k < |parts| && PlainText(parts[k], codec) != ""
    requires forall j :: k < j < |parts| ==> PlainText(parts[j], codec) == ""
    ensures LastNonEmpty(PlainTexts(parts, codec)) == PlainText(parts[k], codec)
  {
    var plains := PlainTexts(parts, codec);
    assert forall j :: k < j < |plains| ==> plains[j] == "";
    LastNonEmptyAt(plains, k);
  }

  lemma LastHtmlAt(parts: seq<Part>, codec: Codec, k: nat)
    requires k < |parts| && HtmlText(parts[k], codec) != ""
    requires forall j :: k < j < |parts| ==> HtmlText(parts[j], codec) == ""
    ensures LastNonEmpty(HtmlTexts(parts, codec)) == HtmlText(parts[k], codec)
  {
    var htmls := HtmlTexts(parts, codec);
    assert forall j :: k < j < |htmls| ==> htmls[j] == "";
    LastNonEmptyAt(htmls, k);
  }

  /** With no nested multipart text, the last non-empty text/plain child is the answer,
      wherever text/html children stand. */
  lemma LastPlainSiblingWins(p: Part, codec: Codec, k: nat)
    requires !IsTextLeaf(p) && p.hasParts
    requires forall j :: 0 <= j < |p.parts| && IsMultipart(p.parts[j]) ==> BodyText(p.parts[j], codec) == ""
    requires k < |p.parts| && PlainText(p.parts[k], codec) != ""
    requires forall j :: k < j < |p.parts| ==> PlainText(p.parts[j], codec) == ""
    ensures BodyText(p, codec) == PlainText(p.parts[k], codec)
  {
    NoNestedText(p, codec);
    LastPlainAt(p.parts, codec, k);
  }

  /** With no nested multipart text and no non-empty text/plain child, the last non-empty
      text/html child is the answer. */
  lemma LastHtmlSiblingWins(p: Part, codec: Codec, k: nat)
    requires !IsTextLeaf(p) && p.hasParts
    requires forall j :: 0 <= j < |p.parts| && IsMultipart(p.parts[j]) ==> BodyText(p.parts[j], codec) == ""
    requires forall j :: 0 <= j < |p.parts| ==> PlainText(p.parts[j], codec) == ""
    requires k < |p.parts| && HtmlText(p.parts[k], codec) != ""
    requires forall j :: k < j < |p.parts| ==> HtmlText(p.parts[j], codec) == ""
    ensures BodyText(p, codec) == HtmlText(p.parts[k], codec)
  {
    NoNestedText(p, codec);
    NoPlainText(p.parts, codec);
    LastHtmlAt(p.parts, codec, k);
  }

  /** Some text/plain or text/html part with data can be reached from `p` through the
      top level or through `multipart/` type children. */
  predicate HasReachableText(p: Part)
    decreases p, 0
  {
    || IsTextLeaf(p)
    || (p.hasParts && exists i :: 0 <= i < |p.parts| && ReachableVia(p.parts[i]))
  }

  predicate ReachableVia(child: Part)
    decreases child, 1
  {
    IsTextLeaf(child) || (IsMultipart(child) && HasReachableText(child))
  }

  /** Without a reachable text/plain or text/html part with data, the walk returns `""`. */
  lemma {:induction false} NoReachableTextGivesEmpty(p: Part, codec: Codec)
    requires !HasReachableText(p)
    ensures BodyText(p, codec) == ""
    decreases p
  {
    if p.hasParts {
      var nested := NestedTexts(p, codec);
      forall j | 0 <= j < |p.parts|
        ensures nested[j] == "" && PlainTexts(p.parts, codec)[j] == "" && HtmlTexts(p.parts, codec)[j] == ""
      {
        assert !ReachableVia(p.parts[j]);
        ChildAt(p, codec, j);
        if IsMultipart(p.parts[j]) {
          NoReachableTextGivesEmpty(p.parts[j], codec);
        }
      }
    }
  }
}
