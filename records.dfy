/**
 * A product record: a flat map from field name to a string or a list of
 * strings, filled by successive assignments and `dict.update` calls.
 */
module Records {
  import opened Text

  /** A field value: one string, or an ordered list of strings. */
  datatype Value = Str(s: string) | Items(items: seq<string>)

  /** One product: field name to value. */
  type Record = map<string, Value>

  /**
   * `text.strip().replace('\xa0', '')`, the clean-up applied to the product name
   * and the generic name: no non-breaking space is left in the result.
   */
  function Cleaned(s: string): (r: string)
    ensures NBSP !in r
    ensures forall c :: c in r ==> c in s
  {
    RemoveAll(Strip(s), [NBSP])
  }

  /**
   * `get_list_of_items` (scraping_OFF_dict.py:151-159): the stripped text of each
   * tag, one item per tag, in document order.
   */
  function ListOfItems(texts: seq<string>): (r: seq<string>)
    ensures |r| == |texts|
    ensures forall i :: 0 <= i < |texts| ==> r[i] == Strip(texts[i]) && Trimmed(r[i])
  {
    if texts == [] then [] else [Strip(texts[0])] + ListOfItems(texts[1..])
  }

  /** Part `i` is the last of `parts` that holds key `k`. */
  predicate LatestWith(parts: seq<Record>, i: int, k: string)
  {
    0 <= i < |parts| && k in parts[i] && forall j :: i < j < |parts| ==> k !in parts[j]
  }

  /**
   * `product = {}` followed by `product.update(p)` for each part `p` in order
   * (Python's `dict.update` overwrites, like Dafny's map `+`).
   */
  function MergeAll(parts: seq<Record>): (r: Record)
    ensures forall i :: 0 <= i < |parts| ==> parts[i].Keys <= r.Keys
  {
    if parts == [] then map[] else MergeAll(parts[..|parts| - 1]) + parts[|parts| - 1]
  }

  /** Merging one more part is one more `update`. */
  lemma MergeAllPrefix(parts: seq<Record>, k: nat)
    requires k < |parts|
    ensures MergeAll(parts[..k + 1]) == MergeAll(parts[..k]) + parts[k]
  {
    assert parts[..k + 1][..k] == parts[..k];
  }

  /** A key of the merge comes from some part. */
  lemma {:induction false} MergeAllKeys(parts: seq<Record>, k: string)
    requires k in MergeAll(parts)
    ensures exists i :: 0 <= i < |parts| && k in parts[i]
  {
    var init := parts[..|parts| - 1];
    if k !in parts[|parts| - 1] {
      MergeAllKeys(init, k);
      var i :| 0 <= i < |init| && k in init[i];
      assert k in parts[i];
    }
  }

  /** Last write wins: a key takes its value from the last part that holds it. */
  lemma {:induction false} MergeAllLatest(parts: seq<Record>, i: int, k: string)
    requires LatestWith(parts, i, k)
    ensures k in MergeAll(parts) && MergeAll(parts)[k] == parts[i][k]
  {
    if i < |parts| - 1 {
      var init := parts[..|parts| - 1];
      assert LatestWith(init, i, k);
      MergeAllLatest(init, i, k);
    }
  }
}
