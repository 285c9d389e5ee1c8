/**
 * The few Python `str` operations the scraper relies on, over `seq<char>`:
 * `strip()`, `replace(pat, '')`, `split(sep)`, `sep.join(parts)` and `str(n)`.
 */
module Text {
  import opened Wrappers

  /** The non-breaking space U+00A0 that the pages put before a label's colon. */
  const NBSP: char := '\U{00A0}'

  /** The fixed whitespace set that `strip()` removes in this model. */
  predicate IsSpace(c: char)
  {
    c == ' ' || c == '\t' || c == '\n' || c == '\r' || c == '\U{000B}' || c == '\U{000C}' || c == NBSP
  }

  predicate AllSpace(s: string)
  {
    forall i :: 0 <= i < |s| ==> IsSpace(s[i])
  }

  /** True when `s` neither starts nor ends with whitespace. */
  predicate Trimmed(s: string)
  {
    s == [] || (!IsSpace(s[0]) && !IsSpace(s[|s| - 1]))
  }

  /** The end of the run of whitespace that starts at position `i`. */
  function SpaceRunEnd(s: string, i: nat): (n: nat)
    requires i <= |s|
    ensures i <= n <= |s|
    ensures forall j :: i <= j < n ==> IsSpace(s[j])
    ensures n == |s| || !IsSpace(s[n])
    decreases |s| - i
  {
    if i < |s| && IsSpace(s[i]) then SpaceRunEnd(s, i + 1) else i
  }

  /** The start of the run of whitespace that ends at position `j`, going no lower than `lo`. */
  function SpaceRunStart(s: string, lo: nat, j: nat): (n: nat)
    requires lo <= j <= |s|
    ensures lo <= n <= j
    ensures forall t :: n <= t < j ==> IsSpace(s[t])
    ensures n == lo || !IsSpace(s[n - 1])
    decreases j
  {
    if lo < j && IsSpace(s[j - 1]) then SpaceRunStart(s, lo, j - 1) else j
  }

  /** Python's `s.strip()`: `s` without its leading and trailing whitespace. */
  function Strip(s: string): (r: string)
    ensures Trimmed(r)
    ensures Trimmed(s) ==> r == s
    ensures forall c :: c in r ==> c in s
  {
    var a := SpaceRunEnd(s, 0);
    var b := SpaceRunStart(s, a, |s|);
    var r := s[a..b];
    assert forall c :: c in r ==> c in s by {
      forall c | c in r ensures c in s {
        var k :| 0 <= k < |r| && r[k] == c;
        assert s[a + k] == c;
      }
    }
    assert Trimmed(s) ==> r == s by {
      if Trimmed(s) && s != [] {
        assert a == 0 && b == |s|;
      }
    }
    r
  }

  /** `Strip` drops whitespace only: the result is a slice of `s` framed by whitespace. */
  lemma StripIsSlice(s: string) returns (i: nat)
    ensures i + |Strip(s)| <= |s| && Strip(s) == s[i..i + |Strip(s)|]
    ensures AllSpace(s[..i]) && AllSpace(s[i + |Strip(s)|..])
  {
    i := SpaceRunEnd(s, 0);
    var b := SpaceRunStart(s, i, |s|);
    assert Strip(s) == s[i..b];
  }

  /** `pat` occurs in `s` starting at position `i`. */
  predicate OccursAt(s: string, pat: string, i: int)
  {
    0 <= i && i + |pat| <= |s| && s[i..i + |pat|] == pat
  }

  /** An occurrence at `j + 1` in `s` is an occurrence at `j` in `s[1..]`. */
  lemma OccursShift(s: string, pat: string, j: nat)
    requires |s| > 0
    ensures OccursAt(s, pat, j + 1) <==> OccursAt(s[1..], pat, j)
  {
    if j + 1 + |pat| <= |s| {
      assert s[j + 1..j + 1 + |pat|] == s[1..][j..j + |pat|];
    }
  }

  /** The leftmost occurrence of `pat` in `s` at or after position `from`, if any. */
  function IndexFrom(s: string, pat: string, from: nat): (r: Option<nat>)
    ensures r.Some? ==> from <= r.value && OccursAt(s, pat, r.value)
    ensures r.Some? ==> forall j :: from <= j < r.value ==> !OccursAt(s, pat, j)
    ensures r.None? ==> forall j :: from <= j ==> !OccursAt(s, pat, j)
    decreases |s| + 1 - from
  {
    if |s| < from + |pat| then None
    else if OccursAt(s, pat, from) then Some(from)
    else IndexFrom(s, pat, from + 1)
  }

  /** Python's `s.find(pat)`: the position of the leftmost occurrence, if any. */
  function IndexOf(s: string, pat: string): (r: Option<nat>)
    ensures r.Some? ==> OccursAt(s, pat, r.value) && forall j :: 0 <= j < r.value ==> !OccursAt(s, pat, j)
    ensures r.None? ==> forall j :: !OccursAt(s, pat, j)
  {
    IndexFrom(s, pat, 0)
  }

  /** Python's `pat in s`. */
  predicate Contains(s: string, pat: string)
  {
    IndexOf(s, pat).Some?
  }

  /** Python's `sep.join(parts)`. */
  function Join(parts: seq<string>, sep: string): string
  {
    if parts == [] then []
    else if |parts| == 1 then parts[0]
    else parts[0] + sep + Join(parts[1..], sep)
  }

  /** `s[from..to]` holds no occurrence of `pat` when none starts in `[from, to)`. */
  lemma NoneBetween(s: string, pat: string, from: nat, to: nat)
    requires |pat| > 0 && from <= to <= |s|
    requires forall j :: from <= j < to ==> !OccursAt(s, pat, j)
    ensures !Contains(s[from..to], pat)
  {
    if Contains(s[from..to], pat) {
      var j := IndexOf(s[from..to], pat).value;
      SliceOfSlice(s, from, to, j, j + |pat|);
      assert OccursAt(s, pat, from + j);
    }
  }

  lemma SliceOfSlice(s: string, from: nat, to: nat, a: nat, b: nat)
    requires from <= to <= |s| && a <= b <= to - from
    ensures s[from..to][a..b] == s[from + a..from + b]
  {
    forall i | 0 <= i < b - a ensures s[from..to][a..b][i] == s[from + a..from + b][i] {
      assert s[from..to][a..b][i] == s[from..to][a + i] == s[from + a + i];
    }
  }

  /**
   * The pieces of `s[from..]` split on a non-empty `sep`: the text up to the
   * leftmost occurrence, then the pieces of the rest after it.
   */
  function SplitFrom(s: string, sep: string, from: nat): (r: seq<string>)
    requires |sep| > 0 && from <= |s|
    ensures |r| >= 1
    decreases |s| - from
  {
    match IndexFrom(s, sep, from)
    case None => [s[from..]]
    case Some(k) => [s[from..k]] + SplitFrom(s, sep, k + |sep|)
  }

  /**
   * Python's `s.split(sep)` for a non-empty separator: the pieces between the
   * leftmost non-overlapping occurrences of `sep`. There is more than one piece
   * exactly when `sep` occurs in `s`.
   */
  function SplitOn(s: string, sep: string): (r: seq<string>)
    requires |sep| > 0
    ensures |r| >= 1
    ensures !Contains(s, sep) ==> r == [s]
    ensures Contains(s, sep) ==> |r| >= 2
  {
    assert s[0..] == s;
    SplitFrom(s, sep, 0)
  }

  /** Joining the pieces of `s[from..]` back with `sep` gives `s[from..]`. */
  lemma {:induction false} SplitFromJoin(s: string, sep: string, from: nat)
    requires |sep| > 0 && from <= |s|
    ensures Join(SplitFrom(s, sep, from), sep) == s[from..]
    decreases |s| - from
  {
    match IndexFrom(s, sep, from)
    case None =>
    case Some(k) =>
      var rest := SplitFrom(s, sep, k + |sep|);
      SplitFromJoin(s, sep, k + |sep|);
      assert ([s[from..k]] + rest)[1..] == rest;
      assert s[from..] == s[from..k] + s[k..k + |sep|] + s[k + |sep|..];
  }

  /** Joining the pieces of `s.split(sep)` back with `sep` gives `s`. */
  lemma SplitJoin(s: string, sep: string)
    requires |sep| > 0
    ensures Join(SplitOn(s, sep), sep) == s
  {
    SplitFromJoin(s, sep, 0);
    assert s[0..] == s;
  }

  /** No piece of `s[from..]` split on `sep` contains `sep`. */
  lemma {:induction false} PiecesFreeFrom(s: string, sep: string, from: nat, i: nat)
    requires |sep| > 0 && from <= |s| && i < |SplitFrom(s, sep, from)|
    ensures !Contains(SplitFrom(s, sep, from)[i], sep)
    decreases |s| - from
  {
    if i == 0 {
      FirstPieceFree(s, sep, from);
    } else {
      var next := LaterPieceFrom(s, sep, from, i);
      PiecesFreeFrom(s, sep, next, i - 1);
    }
  }

  /** The first piece of `s[from..]` split on `sep` holds no `sep`. */
  lemma FirstPieceFree(s: string, sep: string, from: nat)
    requires |sep| > 0 && from <= |s|
    ensures !Contains(SplitFrom(s, sep, from)[0], sep)
  {
    match IndexFrom(s, sep, from)
    case None =>
      assert s[from..] == s[from..|s|];
      NoneBetween(s, sep, from, |s|);
    case Some(k) =>
      NoneBetween(s, sep, from, k);
  }

  /** Piece `i > 0` of `s[from..]` is piece `i - 1` of the text after the next `sep`. */
  lemma LaterPieceFrom(s: string, sep: string, from: nat, i: nat) returns (next: nat)
    requires |sep| > 0 && from <= |s| && 0 < i < |SplitFrom(s, sep, from)|
    ensures from < next <= |s| && i - 1 < |SplitFrom(s, sep, next)|
    ensures SplitFrom(s, sep, from)[i] == SplitFrom(s, sep, next)[i - 1]
  {
    var k := IndexFrom(s, sep, from).value;
    next := k + |sep|;
    assert SplitFrom(s, sep, from) == [s[from..k]] + SplitFrom(s, sep, next);
  }

  /** No piece of `s.split(sep)` contains `sep`. */
  lemma SplitPiecesFree(s: string, sep: string, i: nat)
    requires |sep| > 0 && i < |SplitOn(s, sep)|
    ensures !Contains(SplitOn(s, sep)[i], sep)
  {
    PiecesFreeFrom(s, sep, 0, i);
  }

  /** A one-character pattern occurs exactly when its character does. */
  lemma ContainsChar(s: string, c: char)
    ensures Contains(s, [c]) <==> c in s
  {
    if c in s {
      var i :| 0 <= i < |s| && s[i] == c;
      assert OccursAt(s, [c], i);
    }
    if Contains(s, [c]) {
      var i := IndexOf(s, [c]).value;
      assert s[i] == s[i..i + 1][0];
    }
  }

  /** Position `e` ends a field of `s` split on `sep`: the end of `s`, or a `sep` starts there. */
  predicate FieldEnd(s: string, sep: string, e: int)
  {
    e == |s| || OccursAt(s, sep, e)
  }

  /**
   * The first piece of `s[from..]` split on `sep`: the text from `from` up to the
   * next `sep`, or up to the end of `s` when there is none.
   */
  lemma FirstPieceFrom(s: string, sep: string, from: nat)
    requires |sep| > 0 && from <= |s|
    ensures var f := SplitFrom(s, sep, from)[0];
      && from + |f| <= |s| && s[from..from + |f|] == f && FieldEnd(s, sep, from + |f|)
      && (IndexFrom(s, sep, from).None? <==> from + |f| == |s|)
  {
    match IndexFrom(s, sep, from)
    case None =>
    case Some(k) =>
      assert SplitFrom(s, sep, from)[0] == s[from..k];
  }

  /**
   * The first field of `s.split(sep)` (Python's `[0]`): the prefix of `s` up to
   * the first `sep`, or all of `s` when `sep` does not occur.
   */
  lemma SplitFirstField(s: string, sep: string)
    requires |sep| > 0
    ensures var f := SplitOn(s, sep)[0];
      && |f| <= |s| && f == s[..|f|] && !Contains(f, sep)
      && (Contains(s, sep) ==> OccursAt(s, sep, |f|))
      && (!Contains(s, sep) ==> f == s)
  {
    FirstPieceFrom(s, sep, 0);
    SplitPiecesFree(s, sep, 0);
    var f := SplitOn(s, sep)[0];
    assert s[0..|f|] == s[..|f|];
  }

  /**
   * The second field of `s.split(sep)` (Python's `[1]`), when `sep` occurs: the
   * text right after the first `sep`, up to the next `sep` or the end of `s`.
   */
  lemma SplitSecondField(s: string, sep: string)
    requires |sep| > 0 && Contains(s, sep)
    ensures var r := SplitOn(s, sep);
      var k := IndexOf(s, sep).value + |sep|;
      && |r| > 1 && k + |r[1]| <= |s| && s[k..k + |r[1]|] == r[1]
      && FieldEnd(s, sep, k + |r[1]|)
  {
    var k := IndexOf(s, sep).value + |sep|;
    var rest := SplitFrom(s, sep, k);
    assert SplitOn(s, sep)[1] == rest[0];
    FirstPieceFrom(s, sep, k);
  }

  /**
   * Python's `s.replace(pat, '')`: every leftmost non-overlapping occurrence of a
   * non-empty `pat` removed; an empty `pat` leaves `s` as it is.
   */
  function RemoveAll(s: string, pat: string): (r: string)
    ensures |r| <= |s|
    ensures forall c :: c in r ==> c in s
    ensures |pat| == 1 ==> pat[0] !in r
    ensures !Contains(s, pat) ==> r == s
    decreases |s|
  {
    if |pat| == 0 || |s| < |pat| then s
    else if s[..|pat|] == pat then assert OccursAt(s, pat, 0); RemoveAll(s[|pat|..], pat)
    else
      assert !Contains(s, pat) ==> !Contains(s[1..], pat) by {
        if Contains(s[1..], pat) {
          OccursShift(s, pat, IndexOf(s[1..], pat).value);
        }
      }
      [s[0]] + RemoveAll(s[1..], pat)
  }

  /**
   * Removing `pat` from `s[from..]`, where its next occurrence is at `k`, keeps
   * the text before `k` and goes on after the occurrence.
   */
  lemma {:induction false} RemoveAllUpTo(s: string, pat: string, from: nat, k: nat, next: nat)
    requires |pat| > 0 && from <= k && OccursAt(s, pat, k) && next == k + |pat|
    requires forall j :: from <= j < k ==> !OccursAt(s, pat, j)
    ensures RemoveAll(s[from..], pat) == s[from..k] + RemoveAll(s[next..], pat)
    decreases k - from
  {
    if from == k {
      RemoveAllHit(s, pat, from, next);
    } else {
      assert !OccursAt(s, pat, from);
      RemoveAllMiss(s, pat, from);
      RemoveAllUpTo(s, pat, from + 1, k, next);
      ConsSlice(s, from, k);
      ConsGlue(RemoveAll(s[from..], pat), s[from], RemoveAll(s[from + 1..], pat), s[from + 1..k], s[from..k],
        RemoveAll(s[next..], pat));
    }
  }

  /** An occurrence of `pat` at `from` is dropped. */
  lemma RemoveAllHit(s: string, pat: string, from: nat, next: nat)
    requires |pat| > 0 && OccursAt(s, pat, from) && next == from + |pat|
    ensures RemoveAll(s[from..], pat) == s[from..from] + RemoveAll(s[next..], pat)
  {
    var t := s[from..];
    assert t[..|pat|] == s[from..from + |pat|];
    assert t[|pat|..] == s[next..];
  }

  /** A character at `from` that starts no occurrence of `pat` is kept. */
  lemma RemoveAllMiss(s: string, pat: string, from: nat)
    requires |pat| > 0 && from + |pat| <= |s| && !OccursAt(s, pat, from)
    ensures RemoveAll(s[from..], pat) == [s[from]] + RemoveAll(s[from + 1..], pat)
  {
    var t := s[from..];
    assert t[..|pat|] == s[from..from + |pat|];
    assert t[1..] == s[from + 1..];
  }

  /** A slice is its first element followed by the rest of it. */
  lemma ConsSlice<T>(s: seq<T>, i: nat, k: nat)
    requires i < k <= |s|
    ensures s[i..k] == [s[i]] + s[i + 1..k]
  {
  }

  /** Gluing a kept character in front of a text already split in two. */
  lemma ConsGlue(x: string, c: char, y: string, a: string, a': string, z: string)
    requires x == [c] + y && y == a + z && a' == [c] + a
    ensures x == a' + z
  {
  }

  /** Joining with no separator a piece followed by further pieces. */
  lemma JoinCons(p: string, rest: seq<string>)
    requires |rest| >= 1
    ensures Join([p] + rest, "") == p + Join(rest, "")
  {
    assert ([p] + rest)[1..] == rest;
    assert p + "" == p;
  }

  /** Removing `pat` from `s[from..]` joins the pieces of `s[from..]` split on `pat`. */
  lemma {:induction false} RemoveAllFrom(s: string, pat: string, from: nat)
    requires |pat| > 0 && from <= |s|
    ensures RemoveAll(s[from..], pat) == Join(SplitFrom(s, pat, from), "")
    decreases |s| - from
  {
    match IndexFrom(s, pat, from)
    case None =>
      NoneBetween(s, pat, from, |s|);
      assert s[from..|s|] == s[from..];
    case Some(k) =>
      var next: nat := k + |pat|;
      SplitFromStep(s, pat, from, k, next);
      RemoveAllFrom(s, pat, next);
      RemoveAllUpTo(s, pat, from, k, next);
      JoinGlue(RemoveAll(s[from..], pat), s[from..k], RemoveAll(s[next..], pat),
        SplitFrom(s, pat, from), SplitFrom(s, pat, next));
  }

  /** Gluing a kept piece in front of the text joined from the remaining pieces. */
  lemma JoinGlue(r: string, head: string, tail: string, parts: seq<string>, rest: seq<string>)
    requires |rest| >= 1 && parts == [head] + rest
    requires r == head + tail && tail == Join(rest, "")
    ensures r == Join(parts, "")
  {
    JoinCons(head, rest);
  }

  /** The pieces of `s[from..]` when the next `sep` is at `k`. */
  lemma SplitFromStep(s: string, sep: string, from: nat, k: nat, next: nat)
    requires |sep| > 0 && from <= |s| && IndexFrom(s, sep, from) == Some(k) && next == k + |sep|
    ensures next <= |s| && SplitFrom(s, sep, from) == [s[from..k]] + SplitFrom(s, sep, next)
  {
  }

  /**
   * `s.replace(pat, '')` is `''.join(s.split(pat))`: the text between the
   * occurrences of `pat` is kept, in order, and only the occurrences go.
   */
  lemma RemoveAllSplit(s: string, pat: string)
    requires |pat| > 0
    ensures RemoveAll(s, pat) == Join(SplitOn(s, pat), "")
  {
    RemoveAllFrom(s, pat, 0);
    assert s[0..] == s;
  }

  function DigitChar(d: nat): char
    requires d < 10
  {
    "0123456789"[d]
  }

  predicate IsDigit(c: char)
  {
    '0' as int <= c as int <= '9' as int
  }

  /** Python's `str(n)` for a natural number: its decimal digits. */
  function NatToString(n: nat): (r: string)
    ensures |r| >= 1
    ensures forall i :: 0 <= i < |r| ==> IsDigit(r[i])
  {
    if n < 10 then [DigitChar(n)] else NatToString(n / 10) + [DigitChar(n % 10)]
  }

  /** Python's `str(n)` for any integer. */
  function IntToString(n: int): (r: string)
    ensures |r| >= 1
    ensures n >= 0 ==> IsDigit(r[0])
    ensures n < 0 ==> r[0] == '-'
  {
    if n < 0 then "-" + NatToString(-n) else NatToString(n)
  }

  /** Reads a string of decimal digits back as a number. */
  function ParseDigits(s: string): nat
    requires forall i :: 0 <= i < |s| ==> IsDigit(s[i])
  {
    if s == [] then 0
    else
      var d := s[|s| - 1] as int - '0' as int;
      assert IsDigit(s[|s| - 1]);
      ParseDigits(s[..|s| - 1]) * 10 + d
  }

  /** `str(n)` is read back as `n`. */
  lemma {:induction false} ParseNatToString(n: nat)
    ensures ParseDigits(NatToString(n)) == n
  {
    var r := NatToString(n);
    if n >= 10 {
      ParseNatToString(n / 10);
      assert r[..|r| - 1] == NatToString(n / 10);
    }
  }

  /** Distinct natural numbers have distinct decimal forms. */
  lemma NatToStringInjective(m: nat, n: nat)
    requires NatToString(m) == NatToString(n)
    ensures m == n
  {
    ParseNatToString(m);
    ParseNatToString(n);
  }

  /** The digits of a negative number follow its sign. */
  lemma NegativeDigits(m: int)
    requires m < 0
    ensures IntToString(m)[1..] == NatToString(-m)
  {
  }

  /** Distinct integers have distinct decimal forms. */
  lemma IntToStringInjective(m: int, n: int)
    requires IntToString(m) == IntToString(n)
    ensures m == n
  {
    if m >= 0 && n >= 0 {
      NatToStringInjective(m, n);
    } else if m < 0 && n < 0 {
      NegativeDigits(m);
      NegativeDigits(n);
      NatToStringInjective(-m, -n);
    }
  }
}
