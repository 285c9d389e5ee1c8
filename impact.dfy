/**
 * `get_environmental_impact` (scraping_OFF_dict.py:319-336): the rows of the
 * Agribalyse table after its header, first cell to second cell, then the score
 * read from the text that follows the table.
 */
module Impact {
  import opened Wrappers
  import opened Text
  import opened Records

  /**
   * The table as the extractor sees it: the texts of the `td` cells of each `tr`,
   * header row first, and the text of the node after the table (`None` when there
   * is none).
   */
  datatype ImpactTable = ImpactTable(rows: seq<seq<string>>, after: Option<string>)

  /** Where the extraction stands: the map so far, and whether it may go on. */
  datatype Progress = Progress(rec: Record, going: bool)

  /**
   * The rows stored one after the other: the stripped first cell maps to the
   * stripped second cell; a row with fewer than two cells raises `IndexError` and
   * stops the extraction.
   */
  function StoreRows(acc: Record, rows: seq<seq<string>>): (p: Progress)
    decreases |rows|
  {
    if rows == [] then Progress(acc, true)
    else if |rows[0]| < 2 then Progress(acc, false)
    else StoreRows(acc[Strip(rows[0][0]) := Str(Strip(rows[0][1]))], rows[1..])
  }

  /** The rows after the header: `range(1, len(impact_list))`. */
  function Body(rows: seq<seq<string>>): seq<seq<string>>
  {
    if rows == [] then [] else rows[1..]
  }

  /**
   * `Score_ACV` (line 329): the stripped second `':'`-separated field of the text
   * after the table; `None` when there is no such text or it has no colon.
   */
  function ScoreAcv(after: Option<string>): (r: Option<string>)
    ensures r.Some? <==> after.Some? && ':' in after.value
    ensures r.Some? ==> Trimmed(r.value) && ':' !in r.value
  {
    if after.None? then None
    else
      ContainsChar(after.value, ':');
      var parts := SplitOn(after.value, ":");
      if |parts| < 2 then None
      else
        SplitPiecesFree(after.value, ":", 1);
        ContainsChar(parts[1], ':');
        Some(Strip(parts[1]))
  }

  /**
   * The score is the stripped text between the first colon of the text after
   * the table and the next colon, or the end of that text.
   */
  lemma ScoreIsSecondField(after: string) returns (e: nat)
    requires ':' in after
    ensures IndexOf(after, ":").Some?
    ensures var k := IndexOf(after, ":").value + 1;
      && k <= |after| && after[k - 1] == ':' && ':' !in after[..k - 1]
      && k <= e <= |after| && ':' !in after[k..e] && (e == |after| || after[e] == ':')
      && ScoreAcv(Some(after)) == Some(Strip(after[k..e]))
  {
    ContainsChar(after, ':');
    SplitSecondField(after, ":");
    var f := SplitOn(after, ":")[1];
    SplitPiecesFree(after, ":", 1);
    ContainsChar(f, ':');
    var k := IndexOf(after, ":").value + 1;
    e := k + |f|;
    assert after[k - 1..k] == ":";
    NoneBetween(after, ":", 0, k - 1);
    assert after[0..k - 1] == after[..k - 1];
    ContainsChar(after[..k - 1], ':');
    if e < |after| {
      assert after[e..e + 1] == ":";
    }
  }

  /**
   * The record `get_environmental_impact` returns for one table. Once every row
   * was read, `Score_ACV` holds the score exactly when the text after the table
   * has a colon; when a row stopped the extraction, the score is never read.
   */
  function Impact(t: ImpactTable): (r: Record)
    ensures var p := StoreRows(map[], Body(t.rows));
      && (p.going && t.after.Some? && ':' in t.after.value ==>
        r == p.rec["Score_ACV" := Str(ScoreAcv(t.after).value)])
      && (p.going && !(t.after.Some? && ':' in t.after.value) ==> r == p.rec)
      && (!p.going ==> r == p.rec)
  {
    var p := StoreRows(map[], Body(t.rows));
    if !p.going then p.rec
    else match ScoreAcv(t.after)
      case None => p.rec
      case Some(v) => p.rec["Score_ACV" := Str(v)]
  }

  /** The header row never contributes, whatever its cells. */
  lemma HeaderIgnored(header: seq<string>, header': seq<string>, rest: seq<seq<string>>, after: Option<string>)
    ensures Impact(ImpactTable([header] + rest, after)) == Impact(ImpactTable([header'] + rest, after))
  {
    assert ([header] + rest)[1..] == rest;
    assert ([header'] + rest)[1..] == rest;
  }

  /** A short row stops the extraction: the rows before it are kept and nothing after it is read. */
  lemma {:induction false} ShortRowStops(acc: Record, rows: seq<seq<string>>, i: nat)
    requires i < |rows| && |rows[i]| < 2
    ensures StoreRows(acc, rows) == Progress(StoreRows(acc, rows[..i]).rec, false)
    decreases |rows|
  {
    var prefix := rows[..i];
    if i == 0 {
      assert prefix == [];
    } else if |rows[0]| < 2 {
      assert prefix[0] == rows[0];
    } else {
      var acc' := acc[Strip(rows[0][0]) := Str(Strip(rows[0][1]))];
      assert StoreRows(acc, prefix) == StoreRows(acc', rows[1..][..i - 1]) by {
        assert prefix[0] == rows[0] && prefix[1..] == rows[1..][..i - 1];
      }
      ShortRowStops(acc', rows[1..], i - 1);
    }
  }

  /** A short row anywhere after the header means no `Score_ACV`. */
  lemma ShortRowLosesScore(t: ImpactTable, i: nat)
    requires 1 <= i < |t.rows| && |t.rows[i]| < 2
    ensures Impact(t) == StoreRows(map[], t.rows[1..i]).rec
  {
    ShortRowStops(map[], t.rows[1..], i - 1);
    assert t.rows[1..][..i - 1] == t.rows[1..i];
  }

  /** A key no later row stores keeps its value. */
  lemma {:induction false} Untouched(acc: Record, rows: seq<seq<string>>, k: string)
    requires k in acc
    requires forall j :: 0 <= j < |rows| && |rows[j]| >= 1 ==> Strip(rows[j][0]) != k
    ensures k in StoreRows(acc, rows).rec && StoreRows(acc, rows).rec[k] == acc[k]
    decreases |rows|
  {
    if rows != [] && |rows[0]| >= 2 {
      var acc' := acc[Strip(rows[0][0]) := Str(Strip(rows[0][1]))];
      forall j | 0 <= j < |rows[1..]| && |rows[1..][j]| >= 1 ensures Strip(rows[1..][j][0]) != k {
        assert rows[1..][j] == rows[j + 1];
      }
      Untouched(acc', rows[1..], k);
    }
  }

  /**
   * With no short row, each row's first cell maps to its second cell, and of two
   * rows with the same first cell the later one wins.
   */
  lemma {:induction false} LastRowWins(acc: Record, rows: seq<seq<string>>, i: nat)
    requires forall j :: 0 <= j < |rows| ==> |rows[j]| >= 2
    requires i < |rows|
    requires forall j :: i < j < |rows| ==> Strip(rows[j][0]) != Strip(rows[i][0])
    ensures StoreRows(acc, rows).going
    ensures Strip(rows[i][0]) in StoreRows(acc, rows).rec
    ensures StoreRows(acc, rows).rec[Strip(rows[i][0])] == Str(Strip(rows[i][1]))
    decreases |rows|
  {
    var acc' := acc[Strip(rows[0][0]) := Str(Strip(rows[0][1]))];
    assert StoreRows(acc, rows) == StoreRows(acc', rows[1..]);
    if i == 0 {
      forall j | 0 <= j < |rows[1..]| && |rows[1..][j]| >= 1 ensures Strip(rows[1..][j][0]) != Strip(rows[0][0]) {
        assert rows[1..][j] == rows[j + 1];
      }
      Untouched(acc', rows[1..], Strip(rows[0][0]));
      AllLongGoes(acc', rows[1..]);
    } else {
      LastRowWins(acc', rows[1..], i - 1);
    }
  }

  /** With no short row the extraction reaches the score. */
  lemma {:induction false} AllLongGoes(acc: Record, rows: seq<seq<string>>)
    requires forall j :: 0 <= j < |rows| ==> |rows[j]| >= 2
    ensures StoreRows(acc, rows).going
    decreases |rows|
  {
    if rows != [] {
      AllLongGoes(acc[Strip(rows[0][0]) := Str(Strip(rows[0][1]))], rows[1..]);
    }
  }

  /** The same extraction as the source performs it: a loop over the row indices, then the score. */
  method ExtractImpact(t: ImpactTable) returns (r: Record)
    ensures r == Impact(t)
  {
    r := map[];
    var i := 1;
    while i < |t.rows|
      invariant 1 <= i <= |t.rows| || (t.rows == [] && i == 1)
      invariant StoreRows(r, if t.rows == [] then [] else t.rows[i..]) == StoreRows(map[], Body(t.rows))
    {
      var tags := t.rows[i];
      assert t.rows[i..][1..] == t.rows[i + 1..];
      if |tags| < 2 {
        return;
      }
      r := r[Strip(tags[0]) := Str(Strip(tags[1]))];
      i := i + 1;
    }
    assert StoreRows(r, []) == Progress(r, true);
    if t.after.None? {
      return;
    }
    var parts := SplitOn(t.after.value, ":");
    if |parts| < 2 {
      return;
    }
    r := r["Score_ACV" := Str(Strip(parts[1]))];
  }
}
