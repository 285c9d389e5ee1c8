/**
 * `get_product_ingredients` (scraping_OFF_dict.py:162-200): the tokenized
 * ingredient list, the additives, the palm-oil ingredients, the allergens, the
 * analysis badges and the NOVA group, read in that order until one raises.
 */
module Ingredients {
  import opened Wrappers
  import opened Text
  import opened Records
  import opened Tokenizer

  /**
   * A bold label followed by a list (lines 171-178): no such label; the label
   * with no `ul` in its parent (`.find_all` on `None` raises); or the texts of the
   * list's `a` tags.
   */
  datatype LabelledList = NoLabel | LabelWithoutList | LabelList(texts: seq<string>)

  /**
   * What the extractor reads from the block after the ingredients heading: the
   * text of `div#ingredients_list`, the two labelled lists, the texts of the `a`
   * tags beside the allergens label, the texts of the analysis spans, and for each
   * link to `/nova` in order the `alt` of its image (`None` when that raises).
   */
  datatype IngredientsSection = IngredientsSection(
    list: Option<string>,
    additives: LabelledList,
    palm: LabelledList,
    allergens: Option<seq<string>>,
    analysis: seq<string>,
    novaBadges: seq<Option<string>>)

  /** The keys this section can produce. */
  const IngredientKeys: set<string> :=
    {"ingredients_list", "additives", "palm_ingredients", "allergens", "ingredients_analysis", "nova_score"}

  /**
   * The NOVA rule of lines 190-193: the second badge's `alt`, split on `" - "`,
   * element [0]. `None` when there are fewer than two badges or when the second
   * badge's `alt` cannot be read.
   */
  function NovaScore(badges: seq<Option<string>>): (r: Option<string>)
    ensures r.Some? <==> |badges| > 1 && badges[1].Some?
  {
    if |badges| > 1 && badges[1].Some? then Some(SplitOn(badges[1].value, " - ")[0]) else None
  }

  /**
   * The NOVA group is the part of the `alt` before its first `" - "`, or the whole
   * `alt` when it has none.
   */
  lemma NovaIsFirstField(badges: seq<Option<string>>)
    requires NovaScore(badges).Some?
    ensures var alt := badges[1].value;
      var v := NovaScore(badges).value;
      && v == alt[..|v|] && !Contains(v, " - ")
      && (Contains(alt, " - ") ==> OccursAt(alt, " - ", |v|))
      && (!Contains(alt, " - ") ==> v == alt)
  {
    SplitFirstField(badges[1].value, " - ");
  }

  /** Stores a labelled list under `key`, when the label is there. */
  function WithList(acc: Record, key: string, l: LabelledList): (r: Record)
    requires !l.LabelWithoutList?
    ensures l.NoLabel? ==> r == acc
    ensures l.LabelList? ==> r == acc[key := Items(ListOfItems(l.texts))]
  {
    if l.LabelList? then acc[key := Items(ListOfItems(l.texts))] else acc
  }

  /** The record `get_product_ingredients` returns for one block. */
  function Ingredients(sec: IngredientsSection): (r: Record)
    ensures r.Keys <= IngredientKeys
    ensures "ingredients_list" in r <==> sec.list.Some?
    ensures "additives" in r <==> sec.additives.LabelList?
    ensures "palm_ingredients" in r <==> !sec.additives.LabelWithoutList? && sec.palm.LabelList?
    ensures "allergens" in r <==>
      !sec.additives.LabelWithoutList? && !sec.palm.LabelWithoutList? && sec.allergens.Some?
    ensures "ingredients_analysis" in r <==> !sec.additives.LabelWithoutList? && !sec.palm.LabelWithoutList?
    ensures "nova_score" in r <==>
      !sec.additives.LabelWithoutList? && !sec.palm.LabelWithoutList? && NovaScore(sec.novaBadges).Some?
  {
    var listed := if sec.list.Some? then map["ingredients_list" := Items(Tokenize(sec.list.value))] else map[];
    if sec.additives.LabelWithoutList? then listed
    else
      var withAdditives := WithList(listed, "additives", sec.additives);
      if sec.palm.LabelWithoutList? then withAdditives
      else
        var withPalm := WithList(withAdditives, "palm_ingredients", sec.palm);
        var withAllergens :=
          if sec.allergens.Some? then withPalm["allergens" := Items(ListOfItems(sec.allergens.value))] else withPalm;
        var analysed := withAllergens["ingredients_analysis" := Items(ListOfItems(sec.analysis))];
        match NovaScore(sec.novaBadges)
        case None => analysed
        case Some(v) => analysed["nova_score" := Str(v)]
  }

  /**
   * The value each stored key holds: the tokens of the list text, the stripped
   * link texts of each labelled list, of the allergens and of the analysis
   * badges, and the NOVA group read from the second badge.
   */
  lemma IngredientValues(sec: IngredientsSection)
    ensures var r := Ingredients(sec);
      && (sec.list.Some? ==> r["ingredients_list"] == Items(Tokenize(sec.list.value)))
      && (sec.additives.LabelList? ==> r["additives"] == Items(ListOfItems(sec.additives.texts)))
      && ("palm_ingredients" in r ==> r["palm_ingredients"] == Items(ListOfItems(sec.palm.texts)))
      && ("allergens" in r ==> r["allergens"] == Items(ListOfItems(sec.allergens.value)))
      && ("ingredients_analysis" in r ==> r["ingredients_analysis"] == Items(ListOfItems(sec.analysis)))
      && ("nova_score" in r ==> r["nova_score"] == Str(NovaScore(sec.novaBadges).value))
  {
  }

  /**
   * The stored ingredient list is the tokenized text: each ingredient is
   * non-empty and holds none of the separators.
   */
  lemma IngredientListTokens(sec: IngredientsSection)
    requires sec.list.Some?
    ensures Ingredients(sec)["ingredients_list"] == Items(Tokenize(sec.list.value))
    ensures forall t :: t in Tokenize(sec.list.value) ==>
      t != [] && '.' !in t && '(' !in t && ')' !in t && ';' !in t && !Contains(t, ", ")
  {
    IngredientValues(sec);
    forall t | t in Tokenize(sec.list.value)
      ensures t != [] && '.' !in t && '(' !in t && ')' !in t && ';' !in t && !Contains(t, ", ")
    {
      TokenShape(sec.list.value, t);
    }
  }

  /**
   * The analysis badges are always stored once the two labelled lists were read,
   * one stripped text per badge, in order.
   */
  lemma AnalysisStored(sec: IngredientsSection)
    requires !sec.additives.LabelWithoutList? && !sec.palm.LabelWithoutList?
    ensures var v := Ingredients(sec)["ingredients_analysis"];
      v.Items? && |v.items| == |sec.analysis|
      && forall i :: 0 <= i < |sec.analysis| ==> v.items[i] == Strip(sec.analysis[i])
  {
  }

  /** The same extraction as the source performs it: one dict assignment at a time. */
  method ExtractIngredients(sec: IngredientsSection) returns (r: Record)
    ensures r == Ingredients(sec)
  {
    r := map[];
    if sec.list.Some? {
      r := r["ingredients_list" := Items(Tokenize(sec.list.value))];
    }
    match sec.additives {
      case NoLabel =>
      case LabelWithoutList => return;
      case LabelList(texts) => r := r["additives" := Items(ListOfItems(texts))];
    }
    match sec.palm {
      case NoLabel =>
      case LabelWithoutList => return;
      case LabelList(texts) => r := r["palm_ingredients" := Items(ListOfItems(texts))];
    }
    if sec.allergens.Some? {
      r := r["allergens" := Items(ListOfItems(sec.allergens.value))];
    }
    r := r["ingredients_analysis" := Items(ListOfItems(sec.analysis))];
    if |sec.novaBadges| > 1 {
      var alt := sec.novaBadges[1];
      if alt.None? {
        return;
      }
      var novaData := SplitOn(alt.value, " - ");
      r := r["nova_score" := Str(novaData[0])];
    }
  }
}
