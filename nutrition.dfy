/**
 * `get_nutritional_information` (scraping_OFF_dict.py:203-233): for four bold
 * nutrient labels, the text before the label (the quantity) and the text after it
 * (the comment), each stripped.
 */
module Nutrition {
  import opened Wrappers
  import opened Text
  import opened Records

  /**
   * A `b` tag of the block: its text, and the text nodes just before and just
   * after it (`None` when there is none or it is a tag: `.strip()` then raises).
   */
  datatype Bold = Bold(text: string, before: Option<string>, after: Option<string>)

  /** One of the four nutrients: the bold label looked up, and its two columns. */
  datatype Nutrient = Nutrient(caption: string, quantityKey: string, commentKey: string)

  const Fats := Nutrient("Matières grasses / Lipides", "fats_lipids_quantity", "fats_lipids_comment")
  const SaturatedAcids := Nutrient("Acides gras saturés", "saturated_acids_quantity", "saturated_acids_comment")
  const Sugar := Nutrient("Sucres", "sugar_quantity", "sugar_comment")
  const Salt := Nutrient("Sel", "salt_quantity", "salt_comment")

  /** The keys this section can produce. */
  const NutritionKeys: set<string> := {
    "fats_lipids_quantity", "fats_lipids_comment", "saturated_acids_quantity", "saturated_acids_comment",
    "sugar_quantity", "sugar_comment", "salt_quantity", "salt_comment"}

  /** `find('b', text=caption)`: the first bold, in document order, whose text is `caption`. */
  function FindBold(bolds: seq<Bold>, caption: string): (r: Option<Bold>)
    ensures r.Some? <==> exists i :: 0 <= i < |bolds| && bolds[i].text == caption
    ensures r.Some? ==> r.value in bolds && r.value.text == caption
    ensures r.Some? ==>
      exists i :: 0 <= i < |bolds| && bolds[i] == r.value && forall j :: 0 <= j < i ==> bolds[j].text != caption
  {
    if bolds == [] then None
    else if bolds[0].text == caption then Some(bolds[0])
    else
      var r := FindBold(bolds[1..], caption);
      assert r.Some? ==>
        exists i :: 0 <= i < |bolds| && bolds[i] == r.value && forall j :: 0 <= j < i ==> bolds[j].text != caption
      by {
        if r.Some? {
          var i :| 0 <= i < |bolds[1..]| && bolds[1..][i] == r.value
            && forall j :: 0 <= j < i ==> bolds[1..][j].text != caption;
          forall j | 0 <= j < i + 1 ensures bolds[j].text != caption {
            if j > 0 {
              assert bolds[j] == bolds[1..][j - 1];
            }
          }
          assert bolds[i + 1] == r.value;
        }
      }
      assert (exists i :: 0 <= i < |bolds| && bolds[i].text == caption) ==>
        exists i :: 0 <= i < |bolds[1..]| && bolds[1..][i].text == caption by {
        if exists i :: 0 <= i < |bolds| && bolds[i].text == caption {
          var i :| 0 <= i < |bolds| && bolds[i].text == caption;
          assert bolds[1..][i - 1] == bolds[i];
        }
      }
      r
  }

  /** Where the extraction stands: the map so far, and whether it may go on. */
  datatype Progress = Progress(rec: Record, going: bool)

  /**
   * One nutrient block (lines 208-211 and the three like it): nothing when the
   * label is absent; otherwise the quantity, then the comment, each stored as
   * soon as it is read, and the first sibling that cannot be read stops the
   * extraction.
   */
  function ReadNutrient(acc: Record, bolds: seq<Bold>, n: Nutrient): (p: Progress)
    ensures FindBold(bolds, n.caption).None? ==> p == Progress(acc, true)
    ensures p.going <==> (FindBold(bolds, n.caption).None?
      || (FindBold(bolds, n.caption).value.before.Some? && FindBold(bolds, n.caption).value.after.Some?))
    ensures p.rec.Keys <= acc.Keys + {n.quantityKey, n.commentKey}
  {
    match FindBold(bolds, n.caption)
    case None => Progress(acc, true)
    case Some(b) =>
      if b.before.None? then Progress(acc, false)
      else
        var quantified := acc[n.quantityKey := Str(Strip(b.before.value))];
        if b.after.None? then Progress(quantified, false)
        else Progress(quantified[n.commentKey := Str(Strip(b.after.value))], true)
  }

  /** Runs the next nutrient block, unless an earlier one stopped the extraction. */
  function Then(p: Progress, bolds: seq<Bold>, n: Nutrient): (q: Progress)
  {
    if p.going then ReadNutrient(p.rec, bolds, n) else p
  }

  /** The record `get_nutritional_information` returns for one block. */
  function Nutrition(bolds: seq<Bold>): Record
  {
    Then(Then(Then(ReadNutrient(map[], bolds, Fats), bolds, SaturatedAcids), bolds, Sugar), bolds, Salt).rec
  }

  /** The section only ever produces its eight fixed columns. */
  lemma NutritionKeysBound(bolds: seq<Bold>)
    ensures Nutrition(bolds).Keys <= NutritionKeys
  {
  }

  /** Every label that is there has a text before and a text after it. */
  predicate Readable(bolds: seq<Bold>)
  {
    forall n :: n in [Fats, SaturatedAcids, Sugar, Salt] && FindBold(bolds, n.caption).Some? ==>
      FindBold(bolds, n.caption).value.before.Some? && FindBold(bolds, n.caption).value.after.Some?
  }

  /** A block read in full stores the quantity and the comment of a nutrient exactly when its label is there. */
  predicate PairStored(r: Record, bolds: seq<Bold>, n: Nutrient)
  {
    match FindBold(bolds, n.caption)
    case None => n.quantityKey !in r && n.commentKey !in r
    case Some(b) =>
      && b.before.Some? && b.after.Some?
      && n.quantityKey in r && r[n.quantityKey] == Str(Strip(b.before.value))
      && n.commentKey in r && r[n.commentKey] == Str(Strip(b.after.value))
  }

  /** A nutrient block leaves every other column as it was. */
  lemma ReadNutrientFrame(acc: Record, bolds: seq<Bold>, n: Nutrient, k: string)
    requires k != n.quantityKey && k != n.commentKey
    ensures var r := ReadNutrient(acc, bolds, n).rec;
      (k in r <==> k in acc) && (k in acc ==> r[k] == acc[k])
  {
  }

  /** A block read in full stores both of its nutrient's columns exactly when its label is there. */
  lemma ReadNutrientOwn(acc: Record, bolds: seq<Bold>, n: Nutrient)
    requires n.quantityKey != n.commentKey
    requires n.quantityKey !in acc && n.commentKey !in acc
    requires ReadNutrient(acc, bolds, n).going
    ensures PairStored(ReadNutrient(acc, bolds, n).rec, bolds, n)
  {
  }

  /** A later block keeps a pair the earlier block stored. */
  lemma PairKept(acc: Record, bolds: seq<Bold>, m: Nutrient, n: Nutrient)
    requires PairStored(acc, bolds, m)
    requires m.quantityKey != n.quantityKey && m.quantityKey != n.commentKey
    requires m.commentKey != n.quantityKey && m.commentKey != n.commentKey
    ensures PairStored(ReadNutrient(acc, bolds, n).rec, bolds, m)
  {
    ReadNutrientFrame(acc, bolds, n, m.quantityKey);
    ReadNutrientFrame(acc, bolds, n, m.commentKey);
  }

  /**
   * When every label found can be read, each of the four nutrients contributes
   * both of its columns exactly when its label is there, and nothing else.
   */
  lemma NutritionPairs(bolds: seq<Bold>)
    requires Readable(bolds)
    ensures var r := Nutrition(bolds);
      && PairStored(r, bolds, Fats) && PairStored(r, bolds, SaturatedAcids)
      && PairStored(r, bolds, Sugar) && PairStored(r, bolds, Salt)
  {
    assert Fats in [Fats, SaturatedAcids, Sugar, Salt];
    assert SaturatedAcids in [Fats, SaturatedAcids, Sugar, Salt];
    assert Sugar in [Fats, SaturatedAcids, Sugar, Salt];
    assert Salt in [Fats, SaturatedAcids, Sugar, Salt];
    var p1 := ReadNutrient(map[], bolds, Fats);
    ReadNutrientOwn(map[], bolds, Fats);
    var p2 := ReadNutrient(p1.rec, bolds, SaturatedAcids);
    ReadNutrientFrame(map[], bolds, Fats, SaturatedAcids.quantityKey);
    ReadNutrientFrame(map[], bolds, Fats, SaturatedAcids.commentKey);
    ReadNutrientOwn(p1.rec, bolds, SaturatedAcids);
    PairKept(p1.rec, bolds, Fats, SaturatedAcids);
    var p3 := ReadNutrient(p2.rec, bolds, Sugar);
    ReadNutrientFrame(p1.rec, bolds, SaturatedAcids, Sugar.quantityKey);
    ReadNutrientFrame(p1.rec, bolds, SaturatedAcids, Sugar.commentKey);
    ReadNutrientFrame(map[], bolds, Fats, Sugar.quantityKey);
    ReadNutrientFrame(map[], bolds, Fats, Sugar.commentKey);
    ReadNutrientOwn(p2.rec, bolds, Sugar);
    PairKept(p2.rec, bolds, Fats, Sugar);
    PairKept(p2.rec, bolds, SaturatedAcids, Sugar);
    ReadNutrientFrame(p2.rec, bolds, Sugar, Salt.quantityKey);
    ReadNutrientFrame(p2.rec, bolds, Sugar, Salt.commentKey);
    ReadNutrientFrame(p1.rec, bolds, SaturatedAcids, Salt.quantityKey);
    ReadNutrientFrame(p1.rec, bolds, SaturatedAcids, Salt.commentKey);
    ReadNutrientFrame(map[], bolds, Fats, Salt.quantityKey);
    ReadNutrientFrame(map[], bolds, Fats, Salt.commentKey);
    ReadNutrientOwn(p3.rec, bolds, Salt);
    PairKept(p3.rec, bolds, Fats, Salt);
    PairKept(p3.rec, bolds, SaturatedAcids, Salt);
    PairKept(p3.rec, bolds, Sugar, Salt);
  }

  /**
   * A quantity that cannot be read stops the extraction: the nutrients after it
   * are not read even when their labels are there.
   */
  lemma UnreadableQuantityStops(bolds: seq<Bold>)
    requires FindBold(bolds, Fats.caption).Some? && FindBold(bolds, Fats.caption).value.before.None?
    ensures Nutrition(bolds) == map[]
  {
  }

  /** Only `Sel` on the page: exactly the two salt columns. */
  lemma OnlySalt(quantity: string, comment: string)
    ensures Nutrition([Bold("Sel", Some(quantity), Some(comment))])
      == map["salt_quantity" := Str(Strip(quantity)), "salt_comment" := Str(Strip(comment))]
  {
    var bolds := [Bold("Sel", Some(quantity), Some(comment))];
    assert FindBold(bolds, Fats.caption).None?;
    assert FindBold(bolds, SaturatedAcids.caption).None?;
    assert FindBold(bolds, Sugar.caption).None?;
  }

  /** One nutrient block as the source writes it. */
  method ExtractNutrient(r0: Record, bolds: seq<Bold>, n: Nutrient) returns (r: Record, going: bool)
    ensures Progress(r, going) == ReadNutrient(r0, bolds, n)
  {
    r := r0;
    going := true;
    var b := FindBold(bolds, n.caption);
    if b.Some? {
      if b.value.before.None? {
        return r, false;
      }
      r := r[n.quantityKey := Str(Strip(b.value.before.value))];
      if b.value.after.None? {
        return r, false;
      }
      r := r[n.commentKey := Str(Strip(b.value.after.value))];
    }
  }

  /** The whole block: the four nutrient blocks in the source's order. */
  method ExtractNutrition(bolds: seq<Bold>) returns (r: Record)
    ensures r == Nutrition(bolds)
  {
    var going;
    r, going := ExtractNutrient(map[], bolds, Fats);
    if !going {
      return;
    }
    r, going := ExtractNutrient(r, bolds, SaturatedAcids);
    if !going {
      return;
    }
    r, going := ExtractNutrient(r, bolds, Sugar);
    if !going {
      return;
    }
    r, going := ExtractNutrient(r, bolds, Salt);
  }
}
