/**
 * `get_product_information` (scraping_OFF_dict.py:99-120): the product name, the
 * barcode, and the eco-score read from the third `/ecoscore` badge.
 */
module Identity {
  import opened Wrappers
  import opened Text
  import opened Records

  /**
   * What the extractor reads from the main column: the text of the `h1` name, the
   * text of the barcode `span`, and, for each link to `/ecoscore` in document
   * order, the `alt` of its image (`None` when the link has no image or the image
   * no `alt`, which raises in the source).
   */
  datatype InfoSection = InfoSection(name: Option<string>, barcode: Option<string>, ecoscoreBadges: seq<Option<string>>)

  /** The keys this section can produce. */
  const IdentityKeys: set<string> := {"name", "bar_code", "eco_score"}

  /**
   * The badge rule of lines 111-113: the third badge's `alt`, split on single
   * spaces, element [1]. `None` when there are fewer than three badges, when the
   * third has no `alt` (exception) or when its `alt` holds no space (IndexError).
   */
  function EcoScore(badges: seq<Option<string>>): (r: Option<string>)
    ensures r.Some? <==> |badges| > 2 && badges[2].Some? && ' ' in badges[2].value
  {
    if |badges| > 2 && badges[2].Some? then
      var words := SplitOn(badges[2].value, " ");
      ContainsChar(badges[2].value, ' ');
      if |words| > 1 then Some(words[1]) else None
    else None
  }

  /** The record `get_product_information` returns for one main column. */
  function Identity(sec: InfoSection): (r: Record)
    ensures r.Keys <= IdentityKeys
    ensures "name" in r <==> sec.name.Some?
    ensures "bar_code" in r <==> sec.barcode.Some?
    ensures "eco_score" in r <==> EcoScore(sec.ecoscoreBadges).Some?
    ensures sec.name.Some? ==> r["name"] == Str(Cleaned(sec.name.value))
    ensures sec.barcode.Some? ==> r["bar_code"] == Str(sec.barcode.value)
    ensures "eco_score" in r ==> r["eco_score"] == Str(EcoScore(sec.ecoscoreBadges).value)
  {
    var named := if sec.name.Some? then map["name" := Str(Cleaned(sec.name.value))] else map[];
    var coded := if sec.barcode.Some? then named["bar_code" := Str(sec.barcode.value)] else named;
    match EcoScore(sec.ecoscoreBadges)
    case None => coded
    case Some(v) => coded["eco_score" := Str(v)]
  }

  /**
   * The eco-score is the word of the third badge's `alt` that follows its first
   * space: it holds no space and ends at the next space or at the end of the `alt`.
   */
  lemma EcoScoreIsSecondWord(badges: seq<Option<string>>)
    requires EcoScore(badges).Some?
    ensures var alt := badges[2].value;
      var v := EcoScore(badges).value;
      var k := IndexOf(alt, " ").value + 1;
      && alt[k - 1] == ' ' && ' ' !in alt[..k - 1]
      && k + |v| <= |alt| && alt[k..k + |v|] == v && ' ' !in v
      && (k + |v| == |alt| || alt[k + |v|] == ' ')
  {
    var alt := badges[2].value;
    var v := EcoScore(badges).value;
    ContainsChar(alt, ' ');
    SplitSecondField(alt, " ");
    SplitPiecesFree(alt, " ", 1);
    ContainsChar(v, ' ');
    var k := IndexOf(alt, " ").value + 1;
    assert alt[k - 1..k] == " ";
    NoneBetween(alt, " ", 0, k - 1);
    assert alt[0..k - 1] == alt[..k - 1];
    ContainsChar(alt[..k - 1], ' ');
    if k + |v| < |alt| {
      assert alt[k + |v|..k + |v| + 1] == " ";
    }
  }

  /** The same extraction, filling the dict one assignment at a time. */
  method ExtractIdentity(sec: InfoSection) returns (r: Record)
    ensures r == Identity(sec)
  {
    r := map[];
    if sec.name.Some? {
      r := r["name" := Str(Cleaned(sec.name.value))];
    }
    if sec.barcode.Some? {
      r := r["bar_code" := Str(sec.barcode.value)];
    }
    if |sec.ecoscoreBadges| > 2 {
      var alt := sec.ecoscoreBadges[2];
      if alt.None? {
        return;
      }
      var words := SplitOn(alt.value, " ");
      if |words| < 2 {
        return;
      }
      r := r["eco_score" := Str(words[1])];
    }
  }
}
