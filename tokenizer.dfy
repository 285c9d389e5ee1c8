/**
 * The ingredient tokenizer of scraping_OFF_dict.py:168-169:
 * `list(filter(lambda s: s, re.split(', |\.|\(|\)|;', text.strip())))`.
 * The pattern matches a comma followed by a space, or one of `.`, `(`, `)`, `;`;
 * a comma not followed by a space is ordinary text.
 */
module Tokenizer {
  import opened Text

  /** The one-character alternatives of the pattern. */
  predicate IsSingleSep(c: char)
  {
    c == '.' || c == '(' || c == ')' || c == ';'
  }

  /** The pattern matches at position `i` of `s`. */
  predicate SepAt(s: string, i: int)
  {
    0 <= i < |s| && (IsSingleSep(s[i]) || (s[i] == ',' && i + 1 < |s| && s[i + 1] == ' '))
  }

  /** The length of the match at `i`: two for `", "`, one otherwise. */
  function SepLen(s: string, i: int): (n: nat)
    requires SepAt(s, i)
    ensures 1 <= n && i + n <= |s|
  {
    if IsSingleSep(s[i]) then 1 else 2
  }

  /** `t` holds no match of the pattern. */
  predicate SepFree(t: string)
  {
    forall j :: 0 <= j < |t| ==> !SepAt(t, j)
  }

  /** A match at `j + 1` in `s` is a match at `j` in `s[1..]`. */
  lemma SepShift(s: string, j: nat)
    requires |s| > 0
    ensures SepAt(s, j + 1) <==> SepAt(s[1..], j)
  {
  }

  /** Scans `s` left to right for the first match; `|s|` when there is none. */
  function NextSep(s: string): (k: nat)
    ensures k <= |s|
    ensures k < |s| ==> SepAt(s, k)
    ensures forall j :: 0 <= j < k ==> !SepAt(s, j)
  {
    if s == [] || SepAt(s, 0) then 0
    else
      var k := NextSep(s[1..]);
      assert forall j :: 0 < j < k + 1 ==> !SepAt(s, j) by {
        forall j | 0 < j < k + 1 ensures !SepAt(s, j) { SepShift(s, j - 1); }
      }
      if k < |s| - 1 then SepShift(s, k); k + 1 else k + 1
  }

  /** `re.split` with the pattern: the pieces between its matches, left to right. */
  function Pieces(s: string): (r: seq<string>)
    ensures |r| >= 1
    decreases |s|
  {
    var k := NextSep(s);
    if k == |s| then [s] else [s[..k]] + Pieces(s[k + SepLen(s, k)..])
  }

  /** The matched separators, in the order `re.split` consumed them. */
  function Separators(s: string): seq<string>
    decreases |s|
  {
    var k := NextSep(s);
    if k == |s| then [] else [s[k..k + SepLen(s, k)]] + Separators(s[k + SepLen(s, k)..])
  }

  /** A string the pattern matches in full. */
  predicate IsSeparator(d: string)
  {
    d == ", " || (|d| == 1 && IsSingleSep(d[0]))
  }

  /** `pieces[0] + seps[0] + pieces[1] + ... + pieces[n]`. */
  function Interleave(pieces: seq<string>, seps: seq<string>): string
    requires |pieces| == |seps| + 1
  {
    if seps == [] then pieces[0] else pieces[0] + seps[0] + Interleave(pieces[1..], seps[1..])
  }

  /** One piece more than separators: `re.split` returns `n + 1` pieces for `n` matches. */
  lemma {:induction false} PiecesCount(s: string)
    ensures |Pieces(s)| == |Separators(s)| + 1
    decreases |s|
  {
    var k := NextSep(s);
    if k < |s| {
      PiecesCount(s[k + SepLen(s, k)..]);
    }
  }

  /** Every consumed separator is a full match of the pattern. */
  lemma {:induction false} SeparatorsShape(s: string)
    ensures forall d :: d in Separators(s) ==> IsSeparator(d)
    decreases |s|
  {
    var k := NextSep(s);
    if k < |s| {
      var n := SepLen(s, k);
      SeparatorsShape(s[k + n..]);
      assert IsSeparator(s[k..k + n]);
    }
  }

  /**
   * Nothing is lost or reordered: the pieces, with the separators matched between
   * them, spell the scanned text again.
   */
  lemma {:induction false} PiecesRebuild(s: string)
    ensures |Pieces(s)| == |Separators(s)| + 1
    ensures Interleave(Pieces(s), Separators(s)) == s
    decreases |s|
  {
    PiecesCount(s);
    var k := NextSep(s);
    if k < |s| {
      var n := SepLen(s, k);
      var rest := s[k + n..];
      PiecesRebuild(rest);
      PiecesStep(s);
      var ps, ds := Pieces(s), Separators(s);
      assert Interleave(ps, ds) == ps[0] + ds[0] + Interleave(ps[1..], ds[1..]);
      ThreeSlices(s, k, k + n);
    }
  }

  /** Cutting `s` at `a` and `b` and gluing the slices back gives `s`. */
  lemma ThreeSlices<T>(s: seq<T>, a: nat, b: nat)
    requires a <= b <= |s|
    ensures s[..a] + s[a..b] + s[b..] == s
  {
  }

  /** After the first match, the pieces and separators are those of the rest of the text. */
  lemma PiecesStep(s: string)
    requires NextSep(s) < |s|
    ensures var k := NextSep(s); var rest := s[k + SepLen(s, k)..];
      && Pieces(s)[0] == s[..k] && Pieces(s)[1..] == Pieces(rest)
      && Separators(s)[0] == s[k..k + SepLen(s, k)] && Separators(s)[1..] == Separators(rest)
  {
  }

  /** A prefix that ends before the first match holds no match. */
  lemma PrefixSepFree(s: string, k: nat)
    requires k <= |s| && forall j :: 0 <= j < k ==> !SepAt(s, j)
    ensures SepFree(s[..k])
  {
    forall j | 0 <= j < k ensures !SepAt(s[..k], j) {
      assert !SepAt(s, j);
    }
  }

  /** Every piece is separator-free: the pieces are the maximal runs between matches. */
  lemma {:induction false} PiecesSepFree(s: string, i: nat)
    requires i < |Pieces(s)|
    ensures SepFree(Pieces(s)[i])
    decreases |s|
  {
    var k := NextSep(s);
    if k == |s| {
      PrefixSepFree(s, k);
      assert s[..k] == s;
    } else if i == 0 {
      PrefixSepFree(s, k);
    } else {
      PiecesSepFree(s[k + SepLen(s, k)..], i - 1);
    }
  }

  /** A separator-free text has no `.`, `(`, `)`, `;` and no comma followed by a space. */
  lemma SepFreeChars(t: string)
    requires SepFree(t)
    ensures '.' !in t && '(' !in t && ')' !in t && ';' !in t
    ensures !Contains(t, ", ")
  {
    forall j ensures !OccursAt(t, ", ", j) {
      assert !SepAt(t, j);
    }
    forall j | 0 <= j < |t| ensures !IsSingleSep(t[j]) {
      assert !SepAt(t, j);
    }
  }

  /** `filter(lambda s: s, pieces)`: the non-empty pieces, in order. */
  function NonEmpty(pieces: seq<string>): (r: seq<string>)
    ensures forall t :: t in r <==> t in pieces && t != []
    ensures (forall i :: 0 <= i < |pieces| ==> pieces[i] != []) ==> r == pieces
  {
    if pieces == [] then []
    else
      assert forall t :: t in pieces <==> t == pieces[0] || t in pieces[1..];
      if pieces[0] == [] then NonEmpty(pieces[1..])
      else [pieces[0]] + NonEmpty(pieces[1..])
  }

  /** A single piece is kept exactly when it is non-empty. */
  lemma NonEmptySingle(t: string)
    ensures NonEmpty([t]) == if t == [] then [] else [t]
  {
    assert [t][1..] == [];
  }

  /** The filter keeps order: filtering two runs of pieces one after the other. */
  lemma {:induction false} NonEmptyConcat(a: seq<string>, b: seq<string>)
    ensures NonEmpty(a + b) == NonEmpty(a) + NonEmpty(b)
  {
    if a == [] {
      assert a + b == b;
    } else {
      assert (a + b)[1..] == a[1..] + b;
      NonEmptyConcat(a[1..], b);
    }
  }

  /** The ingredient list of one product, as the source computes it. */
  function Tokenize(text: string): seq<string>
  {
    NonEmpty(Pieces(Strip(text)))
  }

  /**
   * Every token is non-empty and holds none of the separators: no `.`, `(`, `)`,
   * `;` and no comma followed by a space.
   */
  lemma TokenShape(text: string, t: string)
    requires t in Tokenize(text)
    ensures t != []
    ensures '.' !in t && '(' !in t && ')' !in t && ';' !in t && !Contains(t, ", ")
  {
    var ps := Pieces(Strip(text));
    var i :| 0 <= i < |ps| && ps[i] == t;
    PiecesSepFree(Strip(text), i);
    SepFreeChars(t);
  }

  /** Splitting separator-free pieces joined with `", "` gives the same pieces back. */
  lemma {:induction false} PiecesOfJoin(ps: seq<string>)
    requires |ps| >= 1 && forall i :: 0 <= i < |ps| ==> SepFree(ps[i])
    ensures Pieces(Join(ps, ", ")) == ps
  {
    var s := Join(ps, ", ");
    if |ps| == 1 {
      assert SepFree(s);
      assert NextSep(s) == |s|;
    } else {
      var p := ps[0];
      var rest := Join(ps[1..], ", ");
      assert s == p + ", " + rest;
      assert SepAt(s, |p|);
      forall j | 0 <= j < |p| ensures !SepAt(s, j) {
        assert !SepAt(p, j);
        assert s[j] == p[j];
        if j + 1 < |p| { assert s[j + 1] == p[j + 1]; } else { assert s[j + 1] == ','; }
      }
      assert NextSep(s) == |p|;
      assert SepLen(s, |p|) == 2;
      assert s[|p| + 2..] == rest;
      PiecesOfJoin(ps[1..]);
      assert s[..|p|] == p;
    }
  }

  /**
   * Tokenizing the tokens joined with `", "` gives the same tokens, provided the
   * joined text does not start or end with whitespace (which the second pass
   * would strip).
   */
  lemma TokenizeIdempotent(text: string)
    requires Trimmed(Join(Tokenize(text), ", "))
    ensures Tokenize(Join(Tokenize(text), ", ")) == Tokenize(text)
  {
    var ts := Tokenize(text);
    var j := Join(ts, ", ");
    if ts == [] {
      assert Pieces(Strip(j)) == [[]];
    } else {
      forall i | 0 <= i < |ts| ensures SepFree(ts[i]) && ts[i] != [] {
        TokenShape(text, ts[i]);
        var ps := Pieces(Strip(text));
        var k :| 0 <= k < |ps| && ps[k] == ts[i];
        PiecesSepFree(Strip(text), k);
      }
      PiecesOfJoin(ts);
    }
  }

  /**
   * Without that proviso the round trip fails: a leading separator leaves a token
   * that starts with a space, and the second pass strips it.
   */
  lemma TokenizeNotIdempotent()
    ensures Tokenize(". b") == [" b"]
    ensures Tokenize(Join(Tokenize(". b"), ", ")) == ["b"]
  {
    LeadingSeparator();
    LeadingSpace();
  }

  /** The first pass: the leading `.` leaves an empty piece, dropped, and `" b"`. */
  lemma LeadingSeparator()
    ensures Tokenize(". b") == [" b"]
  {
    assert Trimmed(". b");
    assert NextSep(". b") == 0;
    assert ". b"[1..] == " b";
    assert NextSep(" b") == 2;
    assert Pieces(". b") == [[], " b"];
  }

  /** The second pass: `" b"` is stripped to `"b"`. */
  lemma LeadingSpace()
    ensures Tokenize(" b") == ["b"]
  {
    assert SpaceRunEnd(" b", 1) == 1 && SpaceRunEnd(" b", 0) == 1;
    assert Strip(" b") == " b"[1..2] == "b";
    assert NextSep("b") == 1;
  }
}
