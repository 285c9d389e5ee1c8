/**
 * `get_percent_difference` and `get_item_from_table`
 * (scraping_OFF_dict.py:236-316): for twelve fixed rows of the nutrition table,
 * the product's value (with its unit removed) and its difference from the
 * category average.
 */
module Comparison {
  import opened Wrappers
  import opened Text
  import opened Records

  /**
   * A `td` of a row: its class list, its text, and the text of its first child
   * (`None` when it has no children, which raises `IndexError`).
   */
  datatype Cell = Cell(classes: seq<string>, text: string, firstChild: Option<string>)

  /** A `tr` of the table: its `id` attribute, if any, and its cells. */
  datatype TableRow = TableRow(id: Option<string>, cells: seq<Cell>)

  /** `find('tr', attrs={'id': id})`: the first row whose `id` is `id`. */
  function FindRow(rows: seq<TableRow>, id: string): (r: Option<TableRow>)
    ensures r.Some? ==> r.value in rows && r.value.id == Some(id)
    ensures r.Some? ==> exists i :: 0 <= i < |rows| && rows[i] == r.value && forall j :: 0 <= j < i ==> rows[j].id != Some(id)
    ensures r.None? ==> forall i :: 0 <= i < |rows| ==> rows[i].id != Some(id)
  {
    if rows == [] then None
    else if rows[0].id == Some(id) then Some(rows[0])
    else
      var r := FindRow(rows[1..], id);
      assert r.None? ==> forall i :: 1 <= i < |rows| ==> rows[i].id != Some(id) by {
        if r.None? {
          forall i | 1 <= i < |rows| ensures rows[i].id != Some(id) {
            assert rows[i] == rows[1..][i - 1];
          }
        }
      }
      assert r.Some? ==> exists i :: 0 <= i < |rows| && rows[i] == r.value && forall j :: 0 <= j < i ==> rows[j].id != Some(id) by {
        if r.Some? {
          var i :| 0 <= i < |rows[1..]| && rows[1..][i] == r.value && forall j :: 0 <= j < i ==> rows[1..][j].id != Some(id);
          forall j | 0 <= j < i + 1 ensures rows[j].id != Some(id) {
            if j > 0 {
              assert rows[j] == rows[1..][j - 1];
            }
          }
          assert rows[i + 1] == r.value;
        }
      }
      r
  }

  /**
   * How `attrs={'class': c}` matches a multi-valued `class` attribute: `c` is
   * one of the classes, or the whole attribute, its classes joined by spaces.
   */
  predicate ClassMatches(classes: seq<string>, c: string)
  {
    c in classes || Join(classes, " ") == c
  }

  /** `find('td', attrs={'class': c})`: the first cell the class test accepts. */
  function FindCell(cells: seq<Cell>, c: string): (r: Option<Cell>)
    ensures r.Some? ==> r.value in cells && ClassMatches(r.value.classes, c)
    ensures r.Some? ==>
      exists i :: 0 <= i < |cells| && cells[i] == r.value && forall j :: 0 <= j < i ==> !ClassMatches(cells[j].classes, c)
    ensures r.None? ==> forall i :: 0 <= i < |cells| ==> !ClassMatches(cells[i].classes, c)
  {
    if cells == [] then None
    else if ClassMatches(cells[0].classes, c) then Some(cells[0])
    else
      var r := FindCell(cells[1..], c);
      assert r.None? ==> forall i :: 1 <= i < |cells| ==> !ClassMatches(cells[i].classes, c) by {
        if r.None? {
          forall i | 1 <= i < |cells| ensures !ClassMatches(cells[i].classes, c) {
            assert cells[i] == cells[1..][i - 1];
          }
        }
      }
      assert r.Some? ==>
        exists i :: 0 <= i < |cells| && cells[i] == r.value && forall j :: 0 <= j < i ==> !ClassMatches(cells[j].classes, c)
      by {
        if r.Some? {
          var i :| 0 <= i < |cells[1..]| && cells[1..][i] == r.value
            && forall j :: 0 <= j < i ==> !ClassMatches(cells[1..][j].classes, c);
          forall j | 0 <= j < i + 1 ensures !ClassMatches(cells[j].classes, c) {
            if j > 0 {
              assert cells[j] == cells[1..][j - 1];
            }
          }
          assert cells[i + 1] == r.value;
        }
      }
      r
  }

  /**
   * The value of a row (lines 302-306): every `\xa0` removed, then every
   * occurrence of the unit, then the text stripped.
   */
  function ValueText(text: string, unit: string): (r: string)
    ensures NBSP !in r && Trimmed(r)
    ensures |unit| == 1 ==> unit[0] !in r
    ensures forall c :: c in r ==> c in text
  {
    Strip(RemoveAll(RemoveAll(text, [NBSP]), unit))
  }

  /** The difference from the average (lines 308-311): the first child's text without `\xa0`, stripped. */
  function DiffText(text: string): (r: string)
    ensures NBSP !in r && Trimmed(r)
  {
    Strip(RemoveAll(text, [NBSP]))
  }

  /** The key of a row's difference. */
  function DiffKey(id: string): string
  {
    id + "_diff"
  }

  /**
   * `get_item_from_table(table, id, unit)`: nothing when the row is absent; the
   * value when the row has a `nutriment_value` cell; the difference when it has a
   * `nutriment_value compare_0` cell whose first child can be read. Only the two
   * keys of the row can appear.
   */
  function ItemFromTable(rows: seq<TableRow>, id: string, unit: string): (r: Record)
    ensures r.Keys <= {id, DiffKey(id)}
  {
    match FindRow(rows, id)
    case None => map[]
    case Some(tr) =>
      var valued := match FindCell(tr.cells, "nutriment_value")
        case None => map[]
        case Some(td) => map[id := Str(ValueText(td.text, unit))];
      match FindCell(tr.cells, "nutriment_value compare_0")
      case None => valued
      case Some(td) =>
        if td.firstChild.None? then valued else valued[DiffKey(id) := Str(DiffText(td.firstChild.value))]
  }

  /**
   * What a row contributes: the value exactly when the row and its value cell are
   * there, with the unit and every `\xa0` removed; the difference exactly when the
   * compare cell is there and its first child can be read.
   */
  lemma ItemFromTableCases(rows: seq<TableRow>, id: string, unit: string)
    ensures var r := ItemFromTable(rows, id, unit);
      && (FindRow(rows, id).None? ==> r == map[])
      && (FindRow(rows, id).Some? ==>
        var cells := FindRow(rows, id).value.cells;
        && (id in r <==> FindCell(cells, "nutriment_value").Some?)
        && (id in r ==> r[id] == Str(ValueText(FindCell(cells, "nutriment_value").value.text, unit)))
        && (DiffKey(id) in r <==>
          FindCell(cells, "nutriment_value compare_0").Some?
          && FindCell(cells, "nutriment_value compare_0").value.firstChild.Some?)
        && (DiffKey(id) in r ==>
          r[DiffKey(id)] == Str(DiffText(FindCell(cells, "nutriment_value compare_0").value.firstChild.value))))
  {
    assert |DiffKey(id)| > |id|;
  }

  /** With the default unit `g`, a stored value holds no `g` and no `\xa0`. */
  lemma GramValueClean(rows: seq<TableRow>, id: string)
    requires id in ItemFromTable(rows, id, "g")
    ensures var v := ItemFromTable(rows, id, "g")[id];
      v.Str? && 'g' !in v.s && NBSP !in v.s && Trimmed(v.s)
  {
    ItemFromTableCases(rows, id, "g");
  }

  /**
   * Two worked values: a quantity with its unit after a space, and after a
   * non-breaking space, both read as the bare number.
   */
  lemma GramValueExamples()
    ensures ValueText("12 g", "g") == "12"
    ensures ValueText("12\U{00A0}g", "g") == "12"
  {
    GramAfterSpace();
    GramAfterNbsp();
  }

  lemma GramAfterSpace()
    ensures ValueText("12 g", "g") == "12"
  {
    ContainsChar("12 g", NBSP);
    assert RemoveAll("g", "g") == "";
    assert RemoveAll(" g", "g") == " ";
    assert RemoveAll("2 g", "g") == "2 ";
    assert RemoveAll("12 g", "g") == "12 ";
    StripTwelve();
  }

  lemma GramAfterNbsp()
    ensures ValueText("12\U{00A0}g", "g") == "12"
  {
    assert RemoveAll("g", [NBSP]) == "g";
    assert RemoveAll("\U{00A0}g", [NBSP]) == "g";
    assert RemoveAll("2\U{00A0}g", [NBSP]) == "2g";
    assert RemoveAll("12\U{00A0}g", [NBSP]) == "12g";
    assert RemoveAll("g", "g") == "";
    assert RemoveAll("2g", "g") == "2";
    assert RemoveAll("12g", "g") == "12";
    assert Trimmed("12");
  }

  lemma StripTwelve()
    ensures Strip("12 ") == "12"
  {
    assert SpaceRunEnd("12 ", 0) == 0;
    assert SpaceRunStart("12 ", 0, 3) == 2;
  }

  /** The twelve rows `get_percent_difference` reads, in its order, with their units. */
  const RowIds: seq<string> := [
    "nutriment_energy-kj_tr", "nutriment_energy-kcal_tr", "nutriment_energy_tr", "nutriment_fat_tr",
    "nutriment_saturated-fat_tr", "nutriment_carbohydrates_tr", "nutriment_sugars_tr", "nutriment_proteins_tr",
    "nutriment_salt_tr", "nutriment_sodium_tr", "nutriment_nutrition-score-fr_tr", "nutriment_nutriscore_tr"]

  /** The unit removed from row `i`'s value: `kj`, `kcal`, then the default `g`. */
  function Unit(i: nat): string
  {
    if i == 0 then "kj" else if i == 1 then "kcal" else "g"
  }

  /** The contributions of the first `n` rows, in order. */
  function Items(rows: seq<TableRow>, n: nat): (r: seq<Record>)
    requires n <= |RowIds|
    ensures |r| == n
    ensures forall i :: 0 <= i < n ==> r[i] == ItemFromTable(rows, RowIds[i], Unit(i))
  {
    if n == 0 then [] else Items(rows, n - 1) + [ItemFromTable(rows, RowIds[n - 1], Unit(n - 1))]
  }

  /** The record `get_percent_difference` returns: the twelve rows merged in order. */
  function PercentDifference(rows: seq<TableRow>): Record
  {
    MergeAll(Items(rows, |RowIds|))
  }

  /** Every key is one of the twelve ids or its `_diff` key. */
  lemma PercentDifferenceKeys(rows: seq<TableRow>, k: string)
    requires k in PercentDifference(rows)
    ensures exists i :: 0 <= i < |RowIds| && (k == RowIds[i] || k == DiffKey(RowIds[i]))
  {
    var parts := Items(rows, |RowIds|);
    MergeAllKeys(parts, k);
    var i :| 0 <= i < |parts| && k in parts[i];
    assert k in ItemFromTable(rows, RowIds[i], Unit(i));
  }

  /** Every id ends in `r`, every `_diff` key in `f`: no key of one row is a key of another. */
  lemma RowKeysDistinct(i: nat, j: nat)
    requires i < |RowIds| && j < |RowIds| && i != j
    ensures RowIds[i] != RowIds[j] && RowIds[i] != DiffKey(RowIds[j]) && DiffKey(RowIds[i]) != DiffKey(RowIds[j])
  {
    var d := DiffKey(RowIds[j]);
    assert d[|d| - 1] == 'f';
    assert RowIds[i][|RowIds[i]| - 1] == 'r';
    assert DiffKey(RowIds[i])[..|RowIds[i]|] == RowIds[i];
    assert d[..|RowIds[j]|] == RowIds[j];
  }

  /** Every key of the twelve rows starts with `n` (for `nutriment_`). */
  lemma RowKeyInitial(i: nat)
    requires i < |RowIds|
    ensures RowIds[i][0] == 'n' && DiffKey(RowIds[i])[0] == 'n'
  {
  }

  /** Every key of the comparison record starts with `n`. */
  lemma PercentDifferenceInitial(rows: seq<TableRow>, k: string)
    ensures k in PercentDifference(rows) ==> |k| > 0 && k[0] == 'n'
  {
    if k in PercentDifference(rows) {
      PercentDifferenceKeys(rows, k);
      var i :| 0 <= i < |RowIds| && (k == RowIds[i] || k == DiffKey(RowIds[i]));
      RowKeyInitial(i);
    }
  }

  /**
   * Each of the twelve rows keeps what `get_item_from_table` read for it: no
   * other row can overwrite its keys.
   */
  lemma RowKept(rows: seq<TableRow>, i: nat, k: string)
    requires i < |RowIds|
    requires k in ItemFromTable(rows, RowIds[i], Unit(i))
    ensures k in PercentDifference(rows) && PercentDifference(rows)[k] == ItemFromTable(rows, RowIds[i], Unit(i))[k]
  {
    var parts := Items(rows, |RowIds|);
    assert k == RowIds[i] || k == DiffKey(RowIds[i]);
    forall j | i < j < |parts| ensures k !in parts[j] {
      RowKeysDistinct(i, j);
      RowKeysDistinct(j, i);
      assert parts[j].Keys <= {RowIds[j], DiffKey(RowIds[j])};
    }
    MergeAllLatest(parts, i, k);
  }

  /** One key of a row id absent from the table is not in the record. */
  lemma AbsentKey(rows: seq<TableRow>, i: nat, k: string)
    requires i < |RowIds| && FindRow(rows, RowIds[i]).None?
    requires k == RowIds[i] || k == DiffKey(RowIds[i])
    ensures k !in PercentDifference(rows)
  {
    var parts := Items(rows, |RowIds|);
    assert parts[i] == map[];
    forall j | 0 <= j < |parts| && j != i ensures k !in parts[j] {
      OtherRowLacksKey(rows, i, j, k);
    }
    if k in MergeAll(parts) {
      MergeAllKeys(parts, k);
    }
  }

  /** Another row's part never holds one of row `i`'s keys. */
  lemma OtherRowLacksKey(rows: seq<TableRow>, i: nat, j: nat, k: string)
    requires i < |RowIds| && j < |RowIds| && i != j
    requires k == RowIds[i] || k == DiffKey(RowIds[i])
    ensures k !in ItemFromTable(rows, RowIds[j], Unit(j))
  {
    RowKeysDistinct(i, j);
    RowKeysDistinct(j, i);
  }

  /** A row id absent from the table contributes neither of its keys. */
  lemma AbsentRowAddsNothing(rows: seq<TableRow>, i: nat)
    requires i < |RowIds| && FindRow(rows, RowIds[i]).None?
    ensures RowIds[i] !in PercentDifference(rows) && DiffKey(RowIds[i]) !in PercentDifference(rows)
  {
    AbsentKey(rows, i, RowIds[i]);
    AbsentKey(rows, i, DiffKey(RowIds[i]));
  }

  /** `get_item_from_table` as the source writes it. */
  method ItemFromTableMethod(rows: seq<TableRow>, id: string, unit: string) returns (values: Record)
    ensures values == ItemFromTable(rows, id, unit)
  {
    values := map[];
    var tr := FindRow(rows, id);
    if tr.Some? {
      var td := FindCell(tr.value.cells, "nutriment_value");
      if td.Some? {
        values := values[id := Str(ValueText(td.value.text, unit))];
      }
      td := FindCell(tr.value.cells, "nutriment_value compare_0");
      if td.Some? {
        if td.value.firstChild.None? {
          return;
        }
        values := values[DiffKey(id) := Str(DiffText(td.value.firstChild.value))];
      }
    }
  }

  /**
   * `get_percent_difference`: one `update` per row id, in the source's order.
   * The source spells out the twelve calls; here they run over `RowIds`.
   */
  method GetPercentDifference(rows: seq<TableRow>) returns (r: Record)
    ensures r == PercentDifference(rows)
  {
    ghost var parts := Items(rows, |RowIds|);
    r := map[];
    assert parts[..0] == [];
    for i := 0 to |RowIds|
      invariant r == MergeAll(parts[..i])
    {
      var part := ItemFromTableMethod(rows, RowIds[i], Unit(i));
      r := r + part;
      MergeAllPrefix(parts, i);
    }
    assert parts[..|RowIds|] == parts;
  }
}
