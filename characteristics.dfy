/**
 * `get_product_characteristics` (scraping_OFF_dict.py:123-146): the generic name,
 * then one column per `span.field` row of the characteristics block, in document
 * order, until a row cannot be read.
 */
module Characteristics {
  import opened Wrappers
  import opened Text
  import opened Records
  import opened Columns

  /** An `a` tag of a row: its text and its `href` attribute, if it has one. */
  datatype Link = Link(text: string, href: Option<string>)

  /**
   * One `span.field` row: the span's text, the text node that follows the span
   * (`None` when there is none, or when it is a tag rather than text: either way
   * `.strip()` raises), and the `a` tags of the span's parent, in order.
   */
  datatype FieldRow = FieldRow(caption: string, sibling: Option<string>, links: seq<Link>)

  /** The block after the characteristics heading: the description span and the rows. */
  datatype CharSection = CharSection(description: Option<string>, rows: seq<FieldRow>)

  /**
   * The column a row fills: the label with its `"\xa0:"` suffix removed, stripped,
   * then mapped by `get_column_name`.
   */
  function FieldName(caption: string): string
  {
    ColumnName(Strip(RemoveAll(caption, [NBSP, ':'])))
  }

  /** The texts of the links, in order. */
  function LinkTexts(links: seq<Link>): (r: seq<string>)
    ensures |r| == |links|
    ensures forall i :: 0 <= i < |links| ==> r[i] == links[i].text
  {
    if links == [] then [] else [links[0].text] + LinkTexts(links[1..])
  }

  /** The column of each row, in order. */
  function FieldNames(rows: seq<FieldRow>): (r: seq<string>)
    ensures |r| == |rows|
    ensures forall i :: 0 <= i < |rows| ==> r[i] == FieldName(rows[i].caption)
  {
    if rows == [] then [] else [FieldName(rows[0].caption)] + FieldNames(rows[1..])
  }

  /**
   * The value a row with column `name` stores, or `None` when reading it raises
   * (lines 134-140): a row without links stores its stripped sibling text; the
   * `link` row stores the `href` of its first link as it is; any other row stores
   * the stripped texts of its links, one item per link, in order.
   */
  function RowValue(name: string, row: FieldRow): (r: Option<Value>)
    ensures row.links == [] ==>
      (r.Some? <==> row.sibling.Some?) && (r.Some? ==> r.value == Str(Strip(row.sibling.value)))
    ensures row.links != [] && name == "link" ==>
      (r.Some? <==> row.links[0].href.Some?) && (r.Some? ==> r.value == Str(row.links[0].href.value))
    ensures row.links != [] && name != "link" ==>
      r.Some? && r.value.Items? && |r.value.items| == |row.links|
      && forall i :: 0 <= i < |row.links| ==> r.value.items[i] == Strip(row.links[i].text)
  {
    if row.links == [] then
      if row.sibling.None? then None else Some(Str(Strip(row.sibling.value)))
    else if name == "link" then
      if row.links[0].href.None? then None else Some(Str(row.links[0].href.value))
    else Some(Items(ListOfItems(LinkTexts(row.links))))
  }

  /**
   * The rows stored one after the other into `acc`, row `i` under column
   * `names[i]`; the first unreadable row ends it.
   */
  function StoreRows(acc: Record, names: seq<string>, rows: seq<FieldRow>): Record
    requires |names| == |rows|
    decreases |rows|
  {
    if rows == [] then acc
    else match RowValue(names[0], rows[0])
      case None => acc
      case Some(v) => StoreRows(acc[names[0] := v], names[1..], rows[1..])
  }

  /** One step of `StoreRows`: the first row is stored, or it ends the extraction. */
  lemma StoreRowsStep(acc: Record, names: seq<string>, rows: seq<FieldRow>)
    requires |names| == |rows| > 0
    ensures RowValue(names[0], rows[0]).None? ==> StoreRows(acc, names, rows) == acc
    ensures RowValue(names[0], rows[0]).Some? ==>
      StoreRows(acc, names, rows) == StoreRows(acc[names[0] := RowValue(names[0], rows[0]).value], names[1..], rows[1..])
  {
  }

  /** `StoreRowsStep` at row `i` of the whole list. */
  lemma StoreRowsAt(acc: Record, names: seq<string>, rows: seq<FieldRow>, i: nat)
    requires |names| == |rows| && i < |rows|
    ensures RowValue(names[i], rows[i]).None? ==> StoreRows(acc, names[i..], rows[i..]) == acc
    ensures RowValue(names[i], rows[i]).Some? ==>
      StoreRows(acc, names[i..], rows[i..]) == StoreRows(acc[names[i] := RowValue(names[i], rows[i]).value], names[i + 1..], rows[i + 1..])
  {
    assert rows[i..][1..] == rows[i + 1..];
    assert names[i..][1..] == names[i + 1..];
    StoreRowsStep(acc, names[i..], rows[i..]);
  }

  /** All rows can be read. */
  predicate AllReadable(names: seq<string>, rows: seq<FieldRow>)
    requires |names| == |rows|
  {
    forall j :: 0 <= j < |rows| ==> RowValue(names[j], rows[j]).Some?
  }

  /** The description's column, if the block has one. */
  function DescriptionPart(sec: CharSection): (r: Record)
    ensures "generic_name" in r <==> sec.description.Some?
    ensures r.Keys <= {"generic_name"}
    ensures sec.description.Some? ==> r["generic_name"] == Str(Cleaned(sec.description.value))
  {
    if sec.description.Some? then map["generic_name" := Str(Cleaned(sec.description.value))] else map[]
  }

  /** The record `get_product_characteristics` returns for one block. */
  function Characteristics(sec: CharSection): Record
  {
    StoreRows(DescriptionPart(sec), FieldNames(sec.rows), sec.rows)
  }

  /** An unreadable row ends the extraction: the rows before it are all that is kept. */
  lemma {:induction false} StopsAtUnreadableRow(acc: Record, names: seq<string>, rows: seq<FieldRow>, i: nat)
    requires |names| == |rows|
    requires i < |rows| && RowValue(names[i], rows[i]).None?
    ensures StoreRows(acc, names, rows) == StoreRows(acc, names[..i], rows[..i])
    decreases |rows|
  {
    if i > 0 {
      match RowValue(names[0], rows[0])
      case None =>
      case Some(v) =>
        assert rows[1..][..i - 1] == rows[..i][1..];
        assert names[1..][..i - 1] == names[..i][1..];
        StopsAtUnreadableRow(acc[names[0] := v], names[1..], rows[1..], i - 1);
    }
  }

  /** Every column comes from the start record or is the column of one of the rows. */
  lemma {:induction false} StoredKeys(acc: Record, names: seq<string>, rows: seq<FieldRow>, k: string)
    requires |names| == |rows|
    requires k in StoreRows(acc, names, rows)
    ensures k in acc || k in names
    decreases |rows|
  {
    if rows != [] && RowValue(names[0], rows[0]).Some? {
      StoredKeys(acc[names[0] := RowValue(names[0], rows[0]).value], names[1..], rows[1..], k);
    }
  }

  /** All rows readable: every row's column is present. */
  lemma {:induction false} StoredWhenReadable(acc: Record, names: seq<string>, rows: seq<FieldRow>, i: nat)
    requires |names| == |rows| && AllReadable(names, rows)
    requires i < |rows|
    ensures names[i] in StoreRows(acc, names, rows)
    decreases |rows|
  {
    var acc' := acc[names[0] := RowValue(names[0], rows[0]).value];
    StoreRowsStep(acc, names, rows);
    assert AllReadable(names[1..], rows[1..]) by {
      forall j | 0 <= j < |rows| - 1 ensures RowValue(names[1..][j], rows[1..][j]).Some? {
        assert RowValue(names[j + 1], rows[j + 1]).Some?;
      }
    }
    if i == 0 {
      KeptAfter(acc', names[1..], rows[1..], names[0]);
    } else {
      StoredWhenReadable(acc', names[1..], rows[1..], i - 1);
    }
  }

  /** A key already stored stays stored (later rows may only overwrite it). */
  lemma {:induction false} KeptAfter(acc: Record, names: seq<string>, rows: seq<FieldRow>, k: string)
    requires |names| == |rows|
    requires k in acc
    ensures k in StoreRows(acc, names, rows)
    decreases |rows|
  {
    if rows != [] && RowValue(names[0], rows[0]).Some? {
      KeptAfter(acc[names[0] := RowValue(names[0], rows[0]).value], names[1..], rows[1..], k);
    }
  }

  /**
   * All rows readable: a column holds the value of the last row with that column,
   * so a later row with the same column wins.
   */
  lemma {:induction false} LastRowWins(acc: Record, names: seq<string>, rows: seq<FieldRow>, i: nat)
    requires |names| == |rows| && AllReadable(names, rows)
    requires i < |rows|
    requires forall j :: i < j < |rows| ==> names[j] != names[i]
    ensures names[i] in StoreRows(acc, names, rows)
    ensures StoreRows(acc, names, rows)[names[i]] == RowValue(names[i], rows[i]).value
    decreases |rows|
  {
    var acc' := acc[names[0] := RowValue(names[0], rows[0]).value];
    assert AllReadable(names[1..], rows[1..]) by {
      forall j | 0 <= j < |rows| - 1 ensures RowValue(names[1..][j], rows[1..][j]).Some? {
        assert RowValue(names[j + 1], rows[j + 1]).Some?;
      }
    }
    StoreRowsStep(acc, names, rows);
    if i == 0 {
      Untouched(acc', names[1..], rows[1..], names[0]);
    } else {
      LastRowWins(acc', names[1..], rows[1..], i - 1);
    }
  }

  /** A column that no row has keeps the value it had in the start record. */
  lemma {:induction false} Untouched(acc: Record, names: seq<string>, rows: seq<FieldRow>, k: string)
    requires |names| == |rows|
    requires k in acc && k !in names
    ensures k in StoreRows(acc, names, rows) && StoreRows(acc, names, rows)[k] == acc[k]
    decreases |rows|
  {
    if rows != [] && RowValue(names[0], rows[0]).Some? {
      Untouched(acc[names[0] := RowValue(names[0], rows[0]).value], names[1..], rows[1..], k);
    }
  }

  /** A column of the block's record is `generic_name` or the column of one of its rows. */
  lemma CharacteristicsKeys(sec: CharSection, k: string)
    requires k in Characteristics(sec)
    ensures k == "generic_name" || exists i :: 0 <= i < |sec.rows| && k == FieldName(sec.rows[i].caption)
  {
    var names := FieldNames(sec.rows);
    StoredKeys(DescriptionPart(sec), names, sec.rows, k);
    if k in names {
      var i :| 0 <= i < |names| && names[i] == k;
      assert k == FieldName(sec.rows[i].caption);
    }
  }

  /**
   * The body of the `try` block for one row (lines 134-140): the value stored
   * under `name`, or `None` when reading the row raises.
   */
  method ReadRow(name: string, row: FieldRow) returns (v: Option<Value>)
    ensures v == RowValue(name, row)
  {
    if row.links == [] {
      if row.sibling.None? {
        return None;
      }
      v := Some(Str(Strip(row.sibling.value)));
    } else if name == "link" {
      if row.links[0].href.None? {
        return None;
      }
      v := Some(Str(row.links[0].href.value));
    } else {
      v := Some(Items(ListOfItems(LinkTexts(row.links))));
    }
  }

  /** The same extraction as the source performs it: one dict assignment per row. */
  method ExtractCharacteristics(sec: CharSection) returns (r: Record)
    ensures r == Characteristics(sec)
  {
    r := map[];
    if sec.description.Some? {
      r := r["generic_name" := Str(Cleaned(sec.description.value))];
    }
    ghost var names := FieldNames(sec.rows);
    ghost var target := Characteristics(sec);
    assert r == DescriptionPart(sec);
    var i := 0;
    while i < |sec.rows|
      invariant 0 <= i <= |sec.rows|
      invariant StoreRows(r, names[i..], sec.rows[i..]) == target
    {
      var row := sec.rows[i];
      var name := FieldName(row.caption);
      assert name == names[i];
      var v := ReadRow(name, row);
      StoreRowsAt(r, names, sec.rows, i);
      if v.None? {
        return;
      }
      r := r[name := v.value];
      i := i + 1;
    }
  }
}
