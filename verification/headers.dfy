/** Case-insensitive lookup in a message's header list (`get_header`). */
module Headers {
  import opened Wrappers
  import opened Text

  /** One entry of the payload's `headers` list; either key may be missing. */
  datatype Header = Header(name: Option<string>, value: Option<string>)

  /** `h.get("name", "").lower() == name.lower()`. */
  predicate NameMatches(h: Header, name: string) {
    Lower(h.name.GetOr("")) == Lower(name)
  }

  /** `get_header`: scans the headers in order and stops at the first name match. */
  function GetHeader(headers: seq<Header>, name: string): (value: string) {
    if headers == [] then ""
    else if NameMatches(headers[0], name) then headers[0].value.GetOr("")
    else GetHeader(headers[1..], name)
  }

  /** The result is the value of the first header whose name equals `name` ignoring case,
      and `""` when that header has no value. */
  lemma {:induction false} GetHeaderFirstMatch(headers: seq<Header>, name: string, k: nat)
    requires k < |headers| && NameMatches(headers[k], name)
    requires forall j :: 0 <= j < k ==> !NameMatches(headers[j], name)
    ensures GetHeader(headers, name) == headers[k].value.GetOr("")
  {
    if k > 0 {
      GetHeaderFirstMatch(headers[1..], name, k - 1);
    }
  }

  /** Without a header of that name the result is `""`. */
  lemma {:induction false} GetHeaderNoMatch(headers: seq<Header>, name: string)
    requires forall k :: 0 <= k < |headers| ==> !NameMatches(headers[k], name)
    ensures GetHeader(headers, name) == ""
  {
    if headers != [] {
      GetHeaderNoMatch(headers[1..], name);
    }
  }

  /** Two queries that differ only in the case of ASCII letters find the same header. */
  lemma {:induction false} GetHeaderIgnoresCase(headers: seq<Header>, a: string, b: string)
    requires Lower(a) == Lower(b)
    ensures GetHeader(headers, a) == GetHeader(headers, b)
  {
    if headers != [] {
      GetHeaderIgnoresCase(headers[1..], a, b);
    }
  }

  /** A header spelt "SUBJECT", wherever it stands, answers a lookup for "Subject" when no
      earlier header matches. */
  lemma UpperCaseSubjectFound(headers: seq<Header>, k: nat)
    requires k < |headers| && headers[k].name == Some("SUBJECT")
    requires forall j :: 0 <= j < k ==> !NameMatches(headers[j], "Subject")
    ensures GetHeader(headers, "Subject") == headers[k].value.GetOr("")
  {
    assert Lower("SUBJECT") == Lower("Subject");
    GetHeaderFirstMatch(headers, "Subject", k);
  }
}
