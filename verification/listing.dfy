/**
 * Listing every message id under a label (`list_message_ids`). The service's answers
 * are given as data: `pages[i]` is the response to the i-th list request.
 */
module Listing {
  import opened Wrappers
  import opened Text

  /** One response of the list call: the ids in its `messages` entries and its
      `nextPageToken`, if any. */
  datatype Page = Page(ids: seq<string>, nextToken: Option<string>)

  /** The loop asks for another page only when the token is truthy. */
  predicate Continues(page: Page) {
    Truthy(page.nextToken)
  }

  /** Some response ends the listing, so the loop stops. */
  predicate Ends(pages: seq<Page>) {
    exists k :: 0 <= k < |pages| && !Continues(pages[k])
  }

  /** The index of the response after which the loop stops: the first one without a
      truthy token. */
  function FirstEnd(pages: seq<Page>): (n: nat)
    requires Ends(pages)
    ensures n < |pages| && !Continues(pages[n])
    ensures forall j :: 0 <= j < n ==> Continues(pages[j])
  {
    if !Continues(pages[0]) then 0
    else
      assert Ends(pages[1..]) by {
        var k :| 0 <= k < |pages| && !Continues(pages[k]);
        assert pages[1..][k - 1] == pages[k];
      }
      1 + FirstEnd(pages[1..])
  }

  /** The ids of `pages`, page after page, in order and without deduplication. */
  function Flatten(pages: seq<Page>): (ids: seq<string>) {
    if pages == [] then [] else Flatten(pages[..|pages| - 1]) + pages[|pages| - 1].ids
  }

  /** The number of ids the pages hold together. */
  function TotalIds(pages: seq<Page>): (n: nat) {
    if pages == [] then 0 else TotalIds(pages[..|pages| - 1]) + |pages[|pages| - 1].ids|
  }

  /** Requests pages until one comes back without a truthy token; returns all their ids. */
  method ListMessageIds(pages: seq<Page>) returns (ids: seq<string>)
    requires Ends(pages)
    ensures ids == Flatten(pages[..FirstEnd(pages) + 1])
  {
    ids := [];
    var i := 0;
    while true
      invariant 0 <= i <= FirstEnd(pages)
      invariant ids == Flatten(pages[..i])
      decreases FirstEnd(pages) - i
    {
      var resp := pages[i];
      assert pages[..i + 1][..i] == pages[..i];
      ids := ids + resp.ids;
      if !Continues(resp) {
        break;
      }
      i := i + 1;
    }
  }

  lemma {:induction false} FlattenAppend(a: seq<Page>, b: seq<Page>)
    ensures Flatten(a + b) == Flatten(a) + Flatten(b)
    decreases |b|
  {
    if b != [] {
      var b' := b[..|b| - 1];
      assert (a + b)[..|a + b| - 1] == a + b';
      FlattenAppend(a, b');
    } else {
      assert a + b == a;
    }
  }

  lemma {:induction false} FlattenLength(pages: seq<Page>)
    ensures |Flatten(pages)| == TotalIds(pages)
  {
    if pages != [] {
      FlattenLength(pages[..|pages| - 1]);
    }
  }

  /** Nothing is skipped or repeated: the ids of the k-th page occupy, in order, the
      positions that follow the ids of the pages before it. */
  lemma PageInFlatten(pages: seq<Page>, k: nat)
    requires k < |pages|
    ensures var off := TotalIds(pages[..k]);
            off + |pages[k].ids| <= |Flatten(pages)|
            && Flatten(pages)[off..off + |pages[k].ids|] == pages[k].ids
  {
    assert pages == pages[..k] + [pages[k]] + pages[k + 1..];
    FlattenAppend(pages[..k] + [pages[k]], pages[k + 1..]);
    FlattenAppend(pages[..k], [pages[k]]);
    assert Flatten([pages[k]]) == pages[k].ids by {
      assert [pages[k]][..0] == [];
    }
    FlattenLength(pages[..k]);
  }

  /** What the listing returns: every page up to the first one without a truthy token,
      each page's ids at the offset of the ids before it, and nothing from later pages. */
  lemma ListingCovers(pages: seq<Page>, k: nat)
    requires Ends(pages) && k <= FirstEnd(pages)
    ensures var listed := Flatten(pages[..FirstEnd(pages) + 1]);
            var off := TotalIds(pages[..k]);
            |listed| == TotalIds(pages[..FirstEnd(pages) + 1])
            && off + |pages[k].ids| <= |listed|
            && listed[off..off + |pages[k].ids|] == pages[k].ids
  {
    var done := pages[..FirstEnd(pages) + 1];
    PageInFlatten(done, k);
    assert done[..k] == pages[..k];
    FlattenLength(done);
  }
}
