/**
 * The text work of the cursor-addressed board, on the entries of one row:
 * splitting incoming text at CR LF, dropping carriage returns, and the
 * erase operations of ECMA-48 — EL (Erase in Line, section 8.3.41) and ED
 * (Erase in Display, section 8.3.39) — which overwrite characters with
 * spaces or drop entries.
 *
 * A row holds several entries side by side; column `c` (counting from 1)
 * is character `c - 1` of the row's text, the entries' texts laid end to
 * end (`RowText`).
 */
module BoardText {
  import opened Common
  import opened Segment

  /** The row's text: its entries' texts laid end to end. */
  function RowText(rds: seq<RichData>): string
  {
    if rds == [] then "" else rds[0].text + RowText(rds[1..])
  }

  /** The pieces laid end to end. */
  function Concat(ts: seq<string>): string
  {
    if ts == [] then "" else ts[0] + Concat(ts[1..])
  }

  predicate AllSpaces(s: string)
  {
    forall j | 0 <= j < |s| :: s[j] == ' '
  }

  // ---------------------------------------------------------------------
  // Incoming text.

  predicate CrLfAt(s: string, j: int)
  {
    0 <= j && j + 1 < |s| && s[j] == '\r' && s[j + 1] == '\n'
  }

  predicate EndsWithCrLf(s: string)
  {
    |s| >= 2 && CrLfAt(s, |s| - 2)
  }

  /** The end of the piece that starts at `k`: just past the first CR LF from `k` on, or the end of `s`. */
  function CrLfEnd(s: string, k: nat): (e: nat)
    requires k < |s|
    ensures k < e <= |s|
    ensures e < |s| ==> CrLfAt(s, e - 2)
    ensures forall j | k <= j && j + 1 < e && j != e - 2 :: !CrLfAt(s, j)
    decreases |s| - k
  {
    if k + 1 >= |s| then |s|
    else if s[k] == '\r' && s[k + 1] == '\n' then k + 2
    else CrLfEnd(s, k + 1)
  }

  /** `str::split_inclusive("\r\n")` over `s[k..]`. */
  function SplitLinesFrom(s: string, k: nat): seq<string>
    requires k <= |s|
    decreases |s| - k
  {
    if k == |s| then [] else
      var e := CrLfEnd(s, k);
      [s[k..e]] + SplitLinesFrom(s, e)
  }

  /** `str::split_inclusive("\r\n")`: the pieces of `s`, each ending with its CR LF. */
  function SplitLines(s: string): seq<string>
  {
    SplitLinesFrom(s, 0)
  }

  /** A CR LF inside a piece can only be its last two characters. */
  predicate CrLfOnlyAtEnd(p: string)
  {
    forall j | 0 <= j && j + 1 < |p| && j != |p| - 2 :: !CrLfAt(p, j)
  }

  /**
   * The pieces lay end to end to give the text back; none is empty (so an
   * empty text has none), each but the last ends with CR LF, and none holds
   * a CR LF anywhere but at its end.
   */
  lemma {:induction false} SplitLinesFromProperties(s: string, k: nat)
    requires k <= |s|
    ensures var ps := SplitLinesFrom(s, k);
      && Concat(ps) == s[k..]
      && (ps == [] <==> k == |s|)
      && (forall i | 0 <= i < |ps| :: |ps[i]| > 0 && CrLfOnlyAtEnd(ps[i]))
      && (forall i | 0 <= i < |ps| - 1 :: EndsWithCrLf(ps[i]))
    decreases |s| - k
  {
    if k < |s| {
      var e := CrLfEnd(s, k);
      var ps := SplitLinesFrom(s, k);
      var rest := SplitLinesFrom(s, e);
      SplitLinesFromProperties(s, e);
      assert ps == [s[k..e]] + rest;
      assert ps[1..] == rest;
      assert s[k..] == s[k..e] + s[e..];
      var p := s[k..e];
      forall j | 0 <= j && j + 1 < |p| && j != |p| - 2
        ensures !CrLfAt(p, j)
      {
        assert !CrLfAt(s, k + j);
      }
      if e < |s| {
        assert CrLfAt(s, e - 2);
        assert EndsWithCrLf(p);
      }
      forall i | 0 <= i < |ps| - 1
        ensures EndsWithCrLf(ps[i])
      {
        if i > 0 {
          assert ps[i] == rest[i - 1];
        } else {
          assert e < |s|;
        }
      }
      forall i | 0 <= i < |ps|
        ensures |ps[i]| > 0 && CrLfOnlyAtEnd(ps[i])
      {
        if i > 0 {
          assert ps[i] == rest[i - 1];
        }
      }
    }
  }

  lemma SplitLinesProperties(s: string)
    ensures var ps := SplitLines(s);
      && Concat(ps) == s
      && (ps == [] <==> s == "")
      && (forall i | 0 <= i < |ps| :: |ps[i]| > 0 && CrLfOnlyAtEnd(ps[i]))
      && (forall i | 0 <= i < |ps| - 1 :: EndsWithCrLf(ps[i]))
  {
    SplitLinesFromProperties(s, 0);
    assert s[0..] == s;
  }

  /** `line.replace("\r", "")`. */
  function RemoveCr(s: string): string
  {
    if s == [] then [] else (if s[0] == '\r' then [] else [s[0]]) + RemoveCr(s[1..])
  }

  /**
   * No carriage return is left, text without one is unchanged, text is
   * cleaned piecewise, and only carriage returns go.
   */
  lemma {:induction false} RemoveCrProperties(s: string)
    ensures '\r' !in RemoveCr(s)
    ensures '\r' !in s ==> RemoveCr(s) == s
    ensures |RemoveCr(s)| == |s| - multiset(s)['\r']
    decreases |s|
  {
    if s != [] {
      RemoveCrProperties(s[1..]);
      assert s == [s[0]] + s[1..];
      assert multiset(s) == multiset{s[0]} + multiset(s[1..]);
    }
  }

  /** Cleaning laid-end-to-end text cleans each part. */
  lemma {:induction false} RemoveCrAppend(a: string, b: string)
    ensures RemoveCr(a + b) == RemoveCr(a) + RemoveCr(b)
    decreases |a|
  {
    if a != [] {
      assert (a + b)[1..] == a[1..] + b;
      RemoveCrAppend(a[1..], b);
    } else {
      assert a + b == b;
    }
  }

  /** A piece that ends with CR LF still ends with a line feed once cleaned. */
  lemma CrLfPieceEndsWithNewline(p: string)
    requires EndsWithCrLf(p)
    ensures var c := RemoveCr(p); |c| > 0 && c[|c| - 1] == '\n'
  {
    var n := |p|;
    assert p == p[..n - 2] + "\r\n";
    RemoveCrAppend(p[..n - 2], "\r\n");
    assert RemoveCr("\r\n") == "\n" by {
      assert "\r\n"[1..] == "\n";
      assert "\n"[1..] == "";
    }
  }

  predicate EndsWithNewline(s: string)
  {
    |s| > 0 && s[|s| - 1] == '\n'
  }

  /** `char::is_whitespace`: the Unicode `White_Space` property. */
  predicate IsWhitespace(c: char)
  {
    ('\U{9}' <= c <= '\U{d}') || c == ' ' || c == '\U{85}' || c == '\U{a0}' || c == '\U{1680}'
    || ('\U{2000}' <= c <= '\U{200a}') || c == '\U{2028}' || c == '\U{2029}' || c == '\U{202f}'
    || c == '\U{205f}' || c == '\U{3000}'
  }

  /** `s.trim().is_empty()`: nothing but white space. */
  predicate IsBlank(s: string)
  {
    forall j | 0 <= j < |s| :: IsWhitespace(s[j])
  }

  // ---------------------------------------------------------------------
  // Erasing.

  /** `b` is `a` with some characters overwritten by spaces, and nothing else changed. */
  predicate Blanked(a: RichData, b: RichData)
  {
    b == a.(text := b.text) && |b.text| == |a.text|
    && forall j | 0 <= j < |a.text| :: b.text[j] == a.text[j] || b.text[j] == ' '
  }

  /** `b` keeps the first `|b|` entries of `a`, each possibly `Blanked`. */
  predicate BlankedPrefix(a: seq<RichData>, b: seq<RichData>)
  {
    |b| <= |a| && forall i | 0 <= i < |b| :: Blanked(a[i], b[i])
  }

  /**
   * Mode 1 of EL, erase from the start of the row up to and including
   * column `col`, exactly as the program's loop does it with `sum`
   * characters in the entries before: an entry wholly before the column is
   * blanked; the entry holding the column is blanked up to it and the scan
   * stops. Once `sum` reaches `col`, though, the stop condition can no
   * longer hold, so every later entry is blanked as well.
   */
  function EraseToCursorAsWritten(rds: seq<RichData>, col: nat, sum: nat): (r: seq<RichData>)
    ensures |r| == |rds|
    decreases |rds|
  {
    if rds == [] then []
    else
      var t := rds[0].text;
      if sum + |t| > col && sum < col then
        [rds[0].(text := Spaces(col - sum) + t[col - sum..])] + rds[1..]
      else
        [rds[0].(text := Spaces(|t|))] + EraseToCursorAsWritten(rds[1..], col, sum + |t|)
  }

  /**
   * Mode 1 of EL with the scan stopping once the column is reached: the
   * first `col` characters of the row become spaces and nothing else changes.
   */
  function EraseToCursor(rds: seq<RichData>, col: nat, sum: nat): seq<RichData>
    decreases |rds|
  {
    if rds == [] || sum >= col then rds
    else
      var t := rds[0].text;
      if sum + |t| > col then
        [rds[0].(text := Spaces(col - sum) + t[col - sum..])] + rds[1..]
      else
        [rds[0].(text := Spaces(|t|))] + EraseToCursor(rds[1..], col, sum + |t|)
  }

  /** Both readings of mode 1 keep every entry and its length and only write spaces. */
  lemma {:induction false} EraseToCursorBlanks(rds: seq<RichData>, col: nat, sum: nat)
    ensures var r := EraseToCursor(rds, col, sum); |r| == |rds| && BlankedPrefix(rds, r)
    ensures var r := EraseToCursorAsWritten(rds, col, sum); |r| == |rds| && BlankedPrefix(rds, r)
    decreases |rds|
  {
    if rds != [] {
      EraseToCursorBlanks(rds[1..], col, sum + |rds[0].text|);
      var r := EraseToCursor(rds, col, sum);
      var w := EraseToCursorAsWritten(rds, col, sum);
      assert Blanked(rds[0], r[0]);
      assert Blanked(rds[0], w[0]);
      forall i | 1 <= i < |rds|
        ensures Blanked(rds[i], r[i]) && Blanked(rds[i], w[i])
      {
        assert rds[i] == rds[1..][i - 1];
      }
    }
  }

  lemma SpacesAppend(a: nat, b: nat)
    ensures Spaces(a) + Spaces(b) == Spaces(a + b)
  {
  }

  lemma RowTextCons(rds: seq<RichData>)
    requires rds != []
    ensures RowText(rds) == rds[0].text + RowText(rds[1..])
  {
  }

  /** The row after mode 1 when its first entry holds the column: that entry is blanked up to it. */
  lemma EraseToCursorRowSplit(rds: seq<RichData>, col: nat, sum: nat)
    requires rds != [] && sum < col && sum + |rds[0].text| > col
    ensures RowText(EraseToCursor(rds, col, sum)) == Spaces(col - sum) + RowText(rds)[col - sum..]
  {
    var t := rds[0].text;
    var c := col - sum;
    var e := rds[0].(text := Spaces(c) + t[c..]);
    assert EraseToCursor(rds, col, sum) == [e] + rds[1..];
    ReplaceFirstText(rds, Spaces(c) + t[c..]);
    TextSuffix(t, RowText(rds[1..]), c);
  }

  /** The row with its first entry's text replaced by `s`. */
  lemma ReplaceFirstText(rds: seq<RichData>, s: string)
    requires rds != []
    ensures RowText([rds[0].(text := s)] + rds[1..]) == s + RowText(rds[1..])
    ensures RowText(rds) == rds[0].text + RowText(rds[1..])
  {
    var r := [rds[0].(text := s)] + rds[1..];
    assert r[1..] == rds[1..];
  }

  lemma TextSuffix(t: string, u: string, c: nat)
    requires c <= |t|
    ensures (t + u)[c..] == t[c..] + u
  {
  }

  /** The row after mode 1 when its first entry ends before the column: that entry is blanked whole. */
  lemma EraseToCursorRowSkip(rds: seq<RichData>, col: nat, sum: nat, k': nat)
    requires rds != [] && sum < col && sum + |rds[0].text| <= col
    requires k' == Min(col - (sum + |rds[0].text|), |RowText(rds[1..])|)
    requires RowText(EraseToCursor(rds[1..], col, sum + |rds[0].text|)) == Spaces(k') + RowText(rds[1..])[k'..]
    ensures var k := Min(col - sum, |RowText(rds)|);
      RowText(EraseToCursor(rds, col, sum)) == Spaces(k) + RowText(rds)[k..]
  {
    var t := rds[0].text;
    var rest := rds[1..];
    var r := EraseToCursor(rds, col, sum);
    var r' := EraseToCursor(rest, col, sum + |t|);
    RowTextCons(rds);
    assert r == [rds[0].(text := Spaces(|t|))] + r';
    assert r[1..] == r';
    RowTextCons(r);
    SpacesAppend(|t|, k');
    assert RowText(rds)[|t| + k'..] == RowText(rest)[k'..];
  }

  /**
   * The row after mode 1: its first `col` characters (all of them if it is
   * shorter) are spaces and the rest is as it was.
   */
  lemma {:induction false} EraseToCursorRow(rds: seq<RichData>, col: nat, sum: nat)
    ensures var k := Min(if col > sum then col - sum else 0, |RowText(rds)|);
      RowText(EraseToCursor(rds, col, sum)) == Spaces(k) + RowText(rds)[k..]
    decreases |rds|
  {
    if rds != [] && sum < col {
      var t := rds[0].text;
      if sum + |t| > col {
        RowTextCons(rds);
        EraseToCursorRowSplit(rds, col, sum);
      } else {
        EraseToCursorRow(rds[1..], col, sum + |t|);
        EraseToCursorRowSkip(rds, col, sum, Min(col - (sum + |t|), |RowText(rds[1..])|));
      }
    }
  }

  /** Mode 1 on a whole row: the first `col` columns become spaces, the rest stays. */
  lemma EraseToCursorEffect(rds: seq<RichData>, col: nat)
    ensures var r := EraseToCursor(rds, col, 0);
      var k := Min(col, |RowText(rds)|);
      && RowText(r) == Spaces(k) + RowText(rds)[k..]
      && |r| == |rds| && BlankedPrefix(rds, r)
  {
    EraseToCursorRow(rds, col, 0);
    EraseToCursorBlanks(rds, col, 0);
  }

  /**
   * With the cursor just after the end of the first entry, the loop as
   * written blanks the second entry too, although it lies wholly after the
   * cursor; the corrected scan leaves it alone.
   */
  lemma EraseToCursorAtBoundary(a: RichData, b: RichData)
    requires a.text == "ab" && b.text == "cd"
    ensures RowText(EraseToCursorAsWritten([a, b], 2, 0)) == "    "
    ensures RowText(EraseToCursor([a, b], 2, 0)) == "  cd"
  {
    assert Spaces(2) == "  ";
    var b' := b.(text := "  ");
    assert EraseToCursorAsWritten([b], 2, 2) == [b'] + EraseToCursorAsWritten([], 2, 4);
    var w := EraseToCursorAsWritten([a, b], 2, 0);
    assert [a, b][1..] == [b];
    assert w == [a.(text := "  ")] + [b'];
    assert RowText([b']) == "  " + RowText([]);
    assert RowText(w) == "  " + RowText([b']);
    var r := EraseToCursor([a, b], 2, 0);
    assert EraseToCursor([b], 2, 2) == [b];
    assert r == [a.(text := "  ")] + [b];
    assert RowText([b]) == "cd" + RowText([]);
    assert RowText(r) == "  " + RowText([b]);
  }

  /**
   * Column `col` falls strictly inside one of the entries, counting the
   * `sum` characters before them: some entry starts before it and ends
   * after it, so the scan as written finds its stopping entry.
   */
  predicate InsideEntry(rds: seq<RichData>, col: nat, sum: nat)
    decreases |rds|
  {
    rds != [] &&
    var t := rds[0].text;
    (sum < col < sum + |t| || InsideEntry(rds[1..], col, sum + |t|))
  }

  /** A column inside an entry lies after the characters already scanned and before the row's end. */
  lemma {:induction false} InsideEntryBounds(rds: seq<RichData>, col: nat, sum: nat)
    requires InsideEntry(rds, col, sum)
    ensures sum < col < sum + |RowText(rds)|
    decreases |rds|
  {
    RowTextCons(rds);
    var t := rds[0].text;
    if !(sum < col < sum + |t|) {
      InsideEntryBounds(rds[1..], col, sum + |t|);
    }
  }

  /**
   * When the column falls inside an entry, the scan as written stops there,
   * and mode 1 as written is the corrected erase.
   */
  lemma {:induction false} EraseToCursorAsWrittenInside(rds: seq<RichData>, col: nat, sum: nat)
    requires InsideEntry(rds, col, sum)
    ensures EraseToCursorAsWritten(rds, col, sum) == EraseToCursor(rds, col, sum)
    decreases |rds|
  {
    var t := rds[0].text;
    if !(sum < col < sum + |t|) {
      InsideEntryBounds(rds[1..], col, sum + |t|);
      EraseToCursorAsWrittenInside(rds[1..], col, sum + |t|);
    }
  }

  /**
   * When the column falls inside no entry (it lies on a boundary between
   * entries, at the row's end or past it), the scan as written never stops
   * and blanks the whole row.
   */
  lemma {:induction false} EraseToCursorAsWrittenBlanksAll(rds: seq<RichData>, col: nat, sum: nat)
    requires !InsideEntry(rds, col, sum)
    ensures RowText(EraseToCursorAsWritten(rds, col, sum)) == Spaces(|RowText(rds)|)
    decreases |rds|
  {
    if rds != [] {
      var t := rds[0].text;
      var rest := EraseToCursorAsWritten(rds[1..], col, sum + |t|);
      EraseToCursorAsWrittenBlanksAll(rds[1..], col, sum + |t|);
      assert EraseToCursorAsWritten(rds, col, sum) == [rds[0].(text := Spaces(|t|))] + rest;
      ReplaceFirstText(rds, Spaces(|t|));
      assert ([rds[0].(text := Spaces(|t|))] + rest)[1..] == rest;
      SpacesAppend(|t|, |RowText(rds[1..])|);
    }
  }

  /**
   * Mode 1 of EL as written on a whole row: every entry is kept at its
   * length with only spaces written; when the cursor's column falls inside
   * an entry the first `col` columns become spaces and the rest stays, as
   * in the corrected erase; otherwise the whole row becomes spaces.
   */
  lemma EraseToCursorAsWrittenEffect(rds: seq<RichData>, col: nat)
    ensures var r := EraseToCursorAsWritten(rds, col, 0);
      var k := Min(col, |RowText(rds)|);
      && |r| == |rds| && BlankedPrefix(rds, r)
      && (InsideEntry(rds, col, 0) ==>
            col < |RowText(rds)| && r == EraseToCursor(rds, col, 0) && RowText(r) == Spaces(k) + RowText(rds)[k..])
      && (!InsideEntry(rds, col, 0) ==> RowText(r) == Spaces(|RowText(rds)|))
  {
    EraseToCursorBlanks(rds, col, 0);
    if InsideEntry(rds, col, 0) {
      InsideEntryBounds(rds, col, 0);
      EraseToCursorAsWrittenInside(rds, col, 0);
      EraseToCursorEffect(rds, col);
    } else {
      EraseToCursorAsWrittenBlanksAll(rds, col, 0);
    }
  }

  /**
   * Mode 0, erase from a column to the end of the row, as the program's
   * loop does it, keeping the first `keep` characters of the row: the entry
   * that reaches past them keeps its part before them and has the rest
   * overwritten with spaces; the entries after it are dropped.
   */
  function EraseFromCol(rds: seq<RichData>, keep: nat, sum: nat): (r: seq<RichData>)
    ensures |r| <= |rds|
    decreases |rds|
  {
    if rds == [] then []
    else
      var t := rds[0].text;
      if sum + |t| > keep then
        if keep >= sum then
          [rds[0].(text := t[..keep - sum] + Spaces(sum + |t| - keep))] + EraseFromCol(rds[1..], keep, sum + |t|)
        else []
      else [rds[0]] + EraseFromCol(rds[1..], keep, sum + |t|)
  }

  /** Mode 0 keeps a prefix of the entries, each at its length, only writing spaces. */
  lemma {:induction false} EraseFromColBlanks(rds: seq<RichData>, keep: nat, sum: nat)
    ensures BlankedPrefix(rds, EraseFromCol(rds, keep, sum))
    decreases |rds|
  {
    if rds != [] {
      var t := rds[0].text;
      var r := EraseFromCol(rds, keep, sum);
      EraseFromColBlanks(rds[1..], keep, sum + |t|);
      if r != [] {
        var r' := EraseFromCol(rds[1..], keep, sum + |t|);
        assert r[1..] == r';
        assert Blanked(rds[0], r[0]);
        forall i | 1 <= i < |r|
          ensures Blanked(rds[i], r[i])
        {
          assert rds[i] == rds[1..][i - 1] && r[i] == r'[i - 1];
        }
      }
    }
  }

  /** `row` is `orig` with its first `k` characters kept and the rest, if any, turned to spaces or cut. */
  predicate KeptThenSpaces(orig: string, row: string, k: nat)
  {
    k <= |row| <= |orig| && row[..k] == orig[..k] && AllSpaces(row[k..])
  }

  /** Text laid before both sides keeps the relation, with the kept part grown by it. */
  lemma KeptThenSpacesPrefix(t: string, u: string, u': string, k': nat)
    requires KeptThenSpaces(u, u', k')
    ensures KeptThenSpaces(t + u, t + u', |t| + k')
  {
    var k := |t| + k';
    assert (t + u')[..k] == t + u'[..k'];
    assert (t + u)[..k] == t + u[..k'];
    assert (t + u')[k..] == u'[k'..];
  }

  /** Text whose tail past `c` is blanked, laid before a row of spaces, keeps its first `c` characters. */
  lemma KeptThenSpacesCut(t: string, c: nat, u: string, u': string)
    requires c <= |t| && KeptThenSpaces(u, u', 0)
    ensures KeptThenSpaces(t + u, t[..c] + Spaces(|t| - c) + u', c)
  {
    var row := t[..c] + Spaces(|t| - c) + u';
    assert row[..c] == t[..c];
    assert (t + u)[..c] == t[..c];
    assert row[c..] == Spaces(|t| - c) + u';
    assert u'[0..] == u';
  }

  /** Mode 0 on a row whose first entry reaches past the kept columns: its tail is blanked, the rest dropped. */
  lemma EraseFromColRowCut(rds: seq<RichData>, keep: nat, sum: nat)
    requires rds != [] && sum <= keep < sum + |rds[0].text|
    requires KeptThenSpaces(RowText(rds[1..]), RowText(EraseFromCol(rds[1..], keep, sum + |rds[0].text|)), 0)
    ensures KeptThenSpaces(RowText(rds), RowText(EraseFromCol(rds, keep, sum)), keep - sum)
  {
    var t := rds[0].text;
    var c := keep - sum;
    var r' := EraseFromCol(rds[1..], keep, sum + |t|);
    var t' := t[..c] + Spaces(sum + |t| - keep);
    assert RowText(EraseFromCol(rds, keep, sum)) == t' + RowText(r') by {
      assert EraseFromCol(rds, keep, sum) == [rds[0].(text := t')] + r';
      ReplaceFirstText(rds, t');
    }
    RowTextCons(rds);
    KeptThenSpacesCut(t, c, RowText(rds[1..]), RowText(r'));
  }

  /** Mode 0 on a row whose first entry lies within the kept columns: that entry stays as it is. */
  lemma EraseFromColRowPass(rds: seq<RichData>, keep: nat, sum: nat, k': nat)
    requires rds != [] && sum + |rds[0].text| <= keep
    requires KeptThenSpaces(RowText(rds[1..]), RowText(EraseFromCol(rds[1..], keep, sum + |rds[0].text|)), k')
    ensures KeptThenSpaces(RowText(rds), RowText(EraseFromCol(rds, keep, sum)), |rds[0].text| + k')
  {
    var t := rds[0].text;
    var r' := EraseFromCol(rds[1..], keep, sum + |t|);
    assert RowText(EraseFromCol(rds, keep, sum)) == t + RowText(r') by {
      assert EraseFromCol(rds, keep, sum) == [rds[0].(text := t)] + r';
      ReplaceFirstText(rds, t);
    }
    RowTextCons(rds);
    KeptThenSpacesPrefix(t, RowText(rds[1..]), RowText(r'), k');
  }

  /**
   * The row after mode 0: its first `keep` characters (past the `sum`
   * already scanned) are as they were, and everything after them is
   * spaces; the row never grows.
   */
  lemma {:induction false} EraseFromColRow(rds: seq<RichData>, keep: nat, sum: nat)
    ensures KeptThenSpaces(RowText(rds), RowText(EraseFromCol(rds, keep, sum)),
                           Min(if keep > sum then keep - sum else 0, |RowText(rds)|))
    decreases |rds|
  {
    if rds != [] {
      var t := rds[0].text;
      RowTextCons(rds);
      EraseFromColRow(rds[1..], keep, sum + |t|);
      if sum + |t| > keep {
        if keep >= sum {
          EraseFromColRowCut(rds, keep, sum);
        }
      } else {
        var k' := Min(keep - (sum + |t|), |RowText(rds[1..])|);
        EraseFromColRowPass(rds, keep, sum, k');
        assert |t| + k' == Min(keep - sum, |RowText(rds)|);
      }
    }
  }

  /**
   * Mode 0 of EL as the program writes it: at column 1 the row is emptied;
   * anywhere else the first `col` characters are kept, so the character at
   * the cursor survives.
   */
  function EraseToEndAsWritten(rds: seq<RichData>, col: nat): (r: seq<RichData>)
    ensures |r| <= |rds|
  {
    if col == 1 then [] else EraseFromCol(rds, col, 0)
  }

  /**
   * Mode 0 of EL erasing from the cursor's column inclusive: at column 1 the
   * row is emptied; anywhere else the first `col - 1` characters are kept.
   */
  function EraseToEnd(rds: seq<RichData>, col: nat): seq<RichData>
  {
    if col <= 1 then [] else EraseFromCol(rds, col - 1, 0)
  }

  /**
   * The row after mode 0: the columns before the cursor are as they were
   * and the cursor's column and everything after it hold only spaces.
   */
  lemma EraseToEndEffect(rds: seq<RichData>, col: nat)
    ensures var r := EraseToEnd(rds, col);
      var k := Min(if col > 0 then col - 1 else 0, |RowText(rds)|);
      var row := RowText(r);
      && k <= |row| <= |RowText(rds)|
      && row[..k] == RowText(rds)[..k]
      && AllSpaces(row[k..])
      && BlankedPrefix(rds, r)
      && (col <= 1 ==> r == [])
  {
    if col > 1 {
      EraseFromColRow(rds, col - 1, 0);
      EraseFromColBlanks(rds, col - 1, 0);
    }
  }

  /**
   * Mode 0 of EL as written: at column 1 the row is emptied; anywhere else
   * the first `col` columns, the cursor's own included, are kept and the
   * rest is spaces or cut. Away from column 1 it is the corrected erase with
   * the cursor one column further right.
   */
  lemma EraseToEndAsWrittenEffect(rds: seq<RichData>, col: nat)
    ensures var r := EraseToEndAsWritten(rds, col);
      && BlankedPrefix(rds, r)
      && (col == 1 ==> r == [])
      && (col != 1 ==> KeptThenSpaces(RowText(rds), RowText(r), Min(col, |RowText(rds)|)))
      && (col >= 2 ==> r == EraseToEnd(rds, col + 1))
  {
    if col != 1 {
      EraseFromColRow(rds, col, 0);
      EraseFromColBlanks(rds, col, 0);
    }
  }

  /**
   * With the cursor on the third column of "abcd", the loop as written
   * keeps "abc", leaving the character under the cursor; erasing from the
   * cursor inclusive leaves "ab".
   */
  lemma EraseToEndKeepsCursorColumn(a: RichData)
    requires a.text == "abcd"
    ensures RowText(EraseToEndAsWritten([a], 3)) == "abc "
    ensures RowText(EraseToEnd([a], 3)) == "ab  "
  {
    assert Spaces(1) == " " && Spaces(2) == "  ";
    assert "abcd"[..3] == "abc" && "abcd"[..2] == "ab";
    assert "abc" + Spaces(1) == "abc " && "ab" + Spaces(2) == "ab  ";
    assert [a][1..] == [];
    var w := EraseToEndAsWritten([a], 3);
    assert w == [a.(text := "abc ")] + EraseFromCol([], 3, 4);
    assert RowText(w) == "abc " + RowText([]);
    var r := EraseToEnd([a], 3);
    assert r == [a.(text := "ab  ")] + EraseFromCol([], 2, 4);
    assert RowText(r) == "ab  " + RowText([]);
  }

  /**
   * Mode 2, the whole row: the first entry's text becomes a full row of
   * spaces and the other entries are dropped.
   */
  function EraseWhole(rds: seq<RichData>, maxCols: nat): (r: seq<RichData>)
    ensures |r| == if rds == [] then 0 else 1
    ensures r != [] ==> r[0] == rds[0].(text := Spaces(maxCols)) && RowText(r) == Spaces(maxCols)
  {
    if rds == [] then [] else
      var r := [rds[0].(text := Spaces(maxCols))];
      assert r[1..] == [];
      r
  }
}
