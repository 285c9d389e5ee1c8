/**
 * `get_column_name` (scraping_OFF_dict.py:339-386): the fixed table from the
 * French labels of the characteristics rows to the record's column names.
 */
module Columns {

  /** The fifteen labels the source recognises, with the column each becomes. */
  const CanonicalNames: map<string, string> := map[
    "Dénomination générique" := "generic_name",
    "Quantité" := "quantity",
    "Conditionnement" := "packaging",
    "Marques" := "brand",
    "Catégories" := "categories",
    "Labels, certifications, récompenses" := "labels",
    "Origine des ingrédients" := "ingredients_origins",
    "Lieux de fabrication ou de transformation" := "manufacturing",
    "Code de traçabilité" := "traceability_code",
    "Lien vers la page du produit sur le site officiel du fabricant" := "link",
    "Magasins" := "markets",
    "Pays de vente" := "sales_countries",
    "Producteur" := "producer_info",
    "Origine" := "origin_detail",
    "Propriétaire de la marque" := "brand_owner"
  ]

  /** The label of the row that holds the manufacturer's product page. */
  const LinkLabel := "Lien vers la page du produit sur le site officiel du fabricant"

  /**
   * The chain of `if label == ...: return ...` tests, in the source's order. The
   * mapping is total: a recognised label gets its column name, any other label
   * is its own column name (the source also logs it; logging is not modelled).
   */
  function ColumnName(caption: string): (name: string)
    ensures caption in CanonicalNames ==> name == CanonicalNames[caption]
    ensures caption !in CanonicalNames ==> name == caption
  {
    if caption == "Dénomination générique" then "generic_name"
    else if caption == "Quantité" then "quantity"
    else if caption == "Conditionnement" then "packaging"
    else if caption == "Marques" then "brand"
    else if caption == "Catégories" then "categories"
    else if caption == "Labels, certifications, récompenses" then "labels"
    else if caption == "Origine des ingrédients" then "ingredients_origins"
    else if caption == "Lieux de fabrication ou de transformation" then "manufacturing"
    else if caption == "Code de traçabilité" then "traceability_code"
    else if caption == LinkLabel then "link"
    else if caption == "Magasins" then "markets"
    else if caption == "Pays de vente" then "sales_countries"
    else if caption == "Producteur" then "producer_info"
    else if caption == "Origine" then "origin_detail"
    else if caption == "Propriétaire de la marque" then "brand_owner"
    else caption
  }

  /**
   * Only the manufacturer-link label becomes the `link` column, apart from an
   * unrecognised label that is literally `link`.
   */
  lemma LinkColumn(caption: string)
    requires ColumnName(caption) == "link"
    ensures caption == LinkLabel || caption == "link"
  {
  }
}
