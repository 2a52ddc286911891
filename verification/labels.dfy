/** Resolving a label name to the label's identifier (`get_label_id`). */
module Labels {
  import opened Wrappers

  /** One entry of the account's label list; either key may be missing. */
  datatype Label = Label(name: Option<string>, id: Option<string>)

  /** `get_label_id`: scans the labels in order and stops at the first exact name match. */
  function GetLabelId(labels: seq<Label>, labelName: string): (id: Option<string>) {
    if labels == [] then None
    else if labels[0].name == Some(labelName) then labels[0].id
    else GetLabelId(labels[1..], labelName)
  }

  /** The result is the id of the first label whose name is exactly `labelName`
      (case-sensitive); a matching label without an id gives `None`, and later labels of
      the same name are not consulted. */
  lemma {:induction false} GetLabelIdFirstMatch(labels: seq<Label>, labelName: string, k: nat)
    requires k < |labels| && labels[k].name == Some(labelName)
    requires forall j :: 0 <= j < k ==> labels[j].name != Some(labelName)
    ensures GetLabelId(labels, labelName) == labels[k].id
  {
    if k > 0 {
      GetLabelIdFirstMatch(labels[1..], labelName, k - 1);
    }
  }

  /** Without a label of that name the result is `None`. */
  lemma {:induction false} GetLabelIdNoMatch(labels: seq<Label>, labelName: string)
    requires forall k :: 0 <= k < |labels| ==> labels[k].name != Some(labelName)
    ensures GetLabelId(labels, labelName) == None
  {
    if labels != [] {
      GetLabelIdNoMatch(labels[1..], labelName);
    }
  }
}
