/**
 * `get_product` (scraping_OFF_dict.py:51-96): one product record, merged from the
 * sections of its page in a fixed order with `dict.update`.
 */
module Assembly {
  import opened Wrappers
  import opened Records
  import opened Identity
  import opened Characteristics
  import opened Ingredients
  import opened Nutrition
  import opened Comparison
  import opened Impact

  /**
   * What `get_product` finds after the nutrition heading (lines 75-78): no heading;
   * a heading with no next sibling (`.next_sibling.next_sibling` raises in
   * `get_product` itself and ends the record); or the bolds of the block after it
   * (`None` when that node cannot be searched, which the extractor catches).
   */
  datatype NutritionAnchor = NoHeading | BrokenHeading | Block(bolds: Option<seq<Bold>>)

  /**
   * `div#main_column` of a product page. A section that is `None` has no heading,
   * or a heading whose next node cannot be searched: either way it adds nothing.
   */
  datatype MainColumn = MainColumn(
    info: InfoSection,
    characteristics: Option<CharSection>,
    ingredients: Option<IngredientsSection>,
    nutrition: NutritionAnchor,
    comparison: Option<seq<TableRow>>,
    impact: Option<ImpactTable>)

  function CharacteristicsPart(m: MainColumn): Record
  {
    if m.characteristics.Some? then Characteristics.Characteristics(m.characteristics.value) else map[]
  }

  function IngredientsPart(m: MainColumn): Record
  {
    if m.ingredients.Some? then Ingredients.Ingredients(m.ingredients.value) else map[]
  }

  function NutritionPart(m: MainColumn): Record
  {
    if m.nutrition.Block? && m.nutrition.bolds.Some? then Nutrition.Nutrition(m.nutrition.bolds.value) else map[]
  }

  function ComparisonPart(m: MainColumn): Record
  {
    if m.comparison.Some? then PercentDifference(m.comparison.value) else map[]
  }

  function ImpactPart(m: MainColumn): Record
  {
    if m.impact.Some? then Impact.Impact(m.impact.value) else map[]
  }

  /**
   * The section records in the order `get_product` merges them; a broken
   * nutrition heading ends the list after the ingredients.
   */
  function Sections(m: MainColumn): (parts: seq<Record>)
    ensures m.nutrition.BrokenHeading? ==> |parts| == 3
    ensures !m.nutrition.BrokenHeading? ==> |parts| == 6
    ensures parts[0] == Identity.Identity(m.info) && parts[1] == CharacteristicsPart(m) && parts[2] == IngredientsPart(m)
    ensures |parts| == 6 ==>
      parts[3] == NutritionPart(m) && parts[4] == ComparisonPart(m) && parts[5] == ImpactPart(m)
  {
    var head := [Identity.Identity(m.info), CharacteristicsPart(m), IngredientsPart(m)];
    if m.nutrition.BrokenHeading? then head
    else head + [NutritionPart(m), ComparisonPart(m), ImpactPart(m)]
  }

  /**
   * The record of one product page: empty when the page or its main column is
   * missing (`None`), otherwise its sections merged in order, later ones winning.
   */
  function Product(main: Option<MainColumn>): Record
  {
    if main.None? then map[] else MergeAll(Sections(main.value))
  }

  /** A broken nutrition heading loses the nutrition, comparison and impact sections. */
  lemma BrokenHeadingKeys(m: MainColumn, k: string)
    requires m.nutrition.BrokenHeading? && k in Product(Some(m))
    ensures k in Identity.Identity(m.info) || k in CharacteristicsPart(m) || k in IngredientsPart(m)
  {
    MergeAllKeys(Sections(m), k);
  }

  /** Every key of a product comes from one of its sections. */
  lemma ProductKeys(m: MainColumn, k: string)
    requires k in Product(Some(m))
    ensures k in Identity.Identity(m.info) || k in CharacteristicsPart(m) || k in IngredientsPart(m)
      || k in NutritionPart(m) || k in ComparisonPart(m) || k in ImpactPart(m)
  {
    MergeAllKeys(Sections(m), k);
  }

  /** No nutrition key is a comparison key: those all start with `nutriment_`. */
  lemma NutritionNotComparison(rows: seq<TableRow>, k: string)
    requires k in NutritionKeys
    ensures k !in PercentDifference(rows)
  {
    PercentDifferenceInitial(rows, k);
    assert k[0] != 'n';
  }

  /**
   * A nutrition column reaches the product with the value the nutrition block
   * read, unless the impact table (whose first cells are free text) has a row
   * with the same name.
   */
  lemma NutritionSurvives(m: MainColumn, k: string)
    requires k in NutritionPart(m) && k !in ImpactPart(m)
    ensures k in Product(Some(m)) && Product(Some(m))[k] == NutritionPart(m)[k]
  {
    var parts := Sections(m);
    NutritionKeysBound(m.nutrition.bolds.value);
    if m.comparison.Some? {
      NutritionNotComparison(m.comparison.value, k);
    }
    assert LatestWith(parts, 3, k);
    MergeAllLatest(parts, 3, k);
  }

  /** The characteristics section, when its heading is there. */
  method CharacteristicsOf(m: MainColumn) returns (part: Record)
    ensures part == CharacteristicsPart(m)
  {
    part := map[];
    if m.characteristics.Some? {
      part := ExtractCharacteristics(m.characteristics.value);
    }
  }

  /** The ingredients section, when its heading is there. */
  method IngredientsOf(m: MainColumn) returns (part: Record)
    ensures part == IngredientsPart(m)
  {
    part := map[];
    if m.ingredients.Some? {
      part := ExtractIngredients(m.ingredients.value);
    }
  }

  /** The nutrition section, when its block can be searched. */
  method NutritionOf(m: MainColumn) returns (part: Record)
    ensures part == NutritionPart(m)
  {
    part := map[];
    if m.nutrition.Block? && m.nutrition.bolds.Some? {
      part := ExtractNutrition(m.nutrition.bolds.value);
    }
  }

  /** The comparison section, when its table is there. */
  method ComparisonOf(m: MainColumn) returns (part: Record)
    ensures part == ComparisonPart(m)
  {
    part := map[];
    if m.comparison.Some? {
      part := GetPercentDifference(m.comparison.value);
    }
  }

  /** The impact section, when its table is there. */
  method ImpactOf(m: MainColumn) returns (part: Record)
    ensures part == ImpactPart(m)
  {
    part := map[];
    if m.impact.Some? {
      part := ExtractImpact(m.impact.value);
    }
  }

  /** `get_product`, one `update` per section, stopping at a broken nutrition heading. */
  method GetProduct(main: Option<MainColumn>) returns (product: Record)
    ensures product == Product(main)
  {
    product := map[];
    if main.None? {
      return;
    }
    var m := main.value;
    ghost var parts := Sections(m);
    assert parts[..0] == [];
    var part := ExtractIdentity(m.info);
    product := product + part;
    MergeAllPrefix(parts, 0);
    part := CharacteristicsOf(m);
    product := product + part;
    MergeAllPrefix(parts, 1);
    part := IngredientsOf(m);
    product := product + part;
    MergeAllPrefix(parts, 2);
    if m.nutrition.BrokenHeading? {
      assert parts[..3] == parts;
      return;
    }
    part := NutritionOf(m);
    product := product + part;
    MergeAllPrefix(parts, 3);
    part := ComparisonOf(m);
    product := product + part;
    MergeAllPrefix(parts, 4);
    part := ImpactOf(m);
    product := product + part;
    MergeAllPrefix(parts, 5);
    assert parts[..6] == parts;
  }
}
