/**
 * `ReWriteBoard`: the fixed grid of rows that cursor-addressed output is
 * written onto. Each row number maps to the entries written on that row,
 * side by side; text arrives with its cursor position, CR LF moves the
 * cursor to the next row, and the ECMA-48 erase commands EL and ED blank
 * parts of rows.
 */
module RewriteBoard {
  import opened Common
  import opened Segment
  import opened BoardText
  import opened Cursor

  /** Every entry is marked as board data and holds no carriage return. */
  ghost predicate CleanRow(rds: seq<RichData>)
  {
    forall e | e in rds :: e.rewriteBoardData && '\r' !in e.text
  }

  /** Every stored row is clean, and rows count from 1. */
  ghost predicate Clean(rows: map<nat, seq<RichData>>)
  {
    forall k | k in rows :: k >= 1 && CleanRow(rows[k])
  }

  /** The lowest row number in use. */
  function MinKey(keys: set<nat>): (k: nat)
    requires keys != {}
    ensures k in keys && forall j | j in keys :: k <= j
  {
    HasMinimum(keys);
    var k :| k in keys && forall j | j in keys :: k <= j;
    k
  }

  lemma HasMinimum(keys: set<nat>)
    requires keys != {}
    ensures exists k :: k in keys && forall j | j in keys :: k <= j
  {
    var k := Lowest(keys);
  }

  /** A lowest key, found by taking keys out one at a time. */
  lemma {:induction false} Lowest(keys: set<nat>) returns (k: nat)
    requires keys != {}
    ensures k in keys && forall j | j in keys :: k <= j
    decreases keys
  {
    var x :| x in keys;
    if keys == {x} {
      k := x;
    } else {
      var y := Lowest(keys - {x});
      LowerOfTwo(keys, x, y);
      k := if x < y then x else y;
    }
  }

  /** The lower of `x` and the lowest of the other keys is the lowest key. */
  lemma LowerOfTwo(keys: set<nat>, x: nat, y: nat)
    requires x in keys && y in keys - {x}
    requires forall j | j in keys - {x} :: y <= j
    ensures var k := if x < y then x else y; k in keys && forall j | j in keys :: k <= j
  {
    var k := if x < y then x else y;
    forall j | j in keys
      ensures k <= j
    {
      if j != x {
        assert j in keys - {x};
      }
    }
  }

  /** The entries of all rows, row by row in ascending row order (a `BTreeMap`'s values). */
  function FlattenRows(rows: map<nat, seq<RichData>>): seq<RichData>
    decreases rows.Keys
  {
    if rows == map[] then []
    else
      var k := MinKey(rows.Keys);
      rows[k] + FlattenRows(rows - {k})
  }

  /** A row numbered after every row in use comes last in the flattened entries. */
  lemma {:induction false} FlattenRowsAppend(rows: map<nat, seq<RichData>>, k: nat, v: seq<RichData>)
    requires forall j | j in rows :: j < k
    ensures FlattenRows(rows[k := v]) == FlattenRows(rows) + v
    decreases rows.Keys
  {
    var r := rows[k := v];
    if rows == map[] {
      assert r.Keys == {k};
      assert r - {k} == map[];
    } else {
      var k0 := MinKey(rows.Keys);
      var m := MinKey(r.Keys);
      assert k0 in r.Keys;
      assert m <= k0 < k;
      assert m == k0;
      assert r - {k0} == (rows - {k0})[k := v];
      FlattenRowsAppend(rows - {k0}, k, v);
    }
  }

  /** A single row flattens to its own entries. */
  lemma FlattenSingleRow(k: nat, v: seq<RichData>)
    ensures FlattenRows(map[k := v]) == v
  {
    FlattenRowsAppend(map[], k, v);
  }

  // ---------------------------------------------------------------------
  // Writing text.

  /** What `add_data` works on: the rows, the cursor, and the entries that fell below the board. */
  datatype BoardState = BoardState(rows: map<nat, seq<RichData>>, n: nat, m: nat, overflow: seq<RichData>)

  /**
   * One piece of incoming text at the cursor. Below the board it goes to
   * the overflow as it is; otherwise, unless it is blank, it is stored on
   * the cursor's row — replacing the row's entries when the cursor is in
   * column 1, after them otherwise — and the cursor moves right by its
   * length. A piece ending in a line feed moves the cursor to the start of
   * the next row.
   */
  function AddLine(st: BoardState, data: RichData, line: string, maxRows: nat): (r: BoardState)
    ensures st.rows.Keys <= r.rows.Keys && st.n <= r.n
    ensures |st.overflow| <= |r.overflow| && r.overflow[..|st.overflow|] == st.overflow
  {
    var content := RemoveCr(line);
    if st.n > maxRows then st.(overflow := st.overflow + [data.(text := content)])
    else
      var rd := data.(text := content, rewriteBoardData := true);
      var st1 :=
        if IsBlank(content) then st
        else
          var before := if st.n in st.rows && st.m != 1 then st.rows[st.n] else [];
          st.(rows := st.rows[st.n := before + [rd]], m := st.m + |content|);
      if EndsWithNewline(content) then st1.(n := st1.n + 1, m := 1) else st1
  }

  /** The pieces written one after another. */
  function AddLines(st: BoardState, data: RichData, lines: seq<string>, maxRows: nat): (r: BoardState)
    ensures st.rows.Keys <= r.rows.Keys && st.n <= r.n
    ensures |st.overflow| <= |r.overflow| && r.overflow[..|st.overflow|] == st.overflow
    decreases |lines|
  {
    if lines == [] then st
    else
      var next := AddLine(st, data, lines[0], maxRows);
      var r := AddLines(next, data, lines[1..], maxRows);
      assert r.overflow[..|st.overflow|] == r.overflow[..|next.overflow|][..|st.overflow|];
      r
  }

  /**
   * The effect of one piece on the rows and the cursor: stored text has no
   * carriage return; a piece below the board changes neither rows nor
   * cursor; at column 1 the row holds only the new entry; elsewhere the
   * entry is added after the row's; the column advances by the piece's
   * length, and a line feed moves the cursor to (row + 1, 1).
   */
  lemma AddLineEffect(st: BoardState, data: RichData, line: string, maxRows: nat)
    ensures var r := AddLine(st, data, line, maxRows);
      var content := RemoveCr(line);
      var rd := data.(text := content, rewriteBoardData := true);
      && '\r' !in content
      && (st.n > maxRows ==>
            && r.rows == st.rows && r.n == st.n && r.m == st.m
            && r.overflow == st.overflow + [data.(text := content)])
      && (st.n <= maxRows ==> r.overflow == st.overflow)
      && (st.n <= maxRows && IsBlank(content) ==> r.rows == st.rows)
      && (st.n <= maxRows && !IsBlank(content) ==>
            && r.rows.Keys == st.rows.Keys + {st.n}
            && (forall k | k in st.rows && k != st.n :: r.rows[k] == st.rows[k])
            && (st.m == 1 ==> r.rows[st.n] == [rd])
            && (st.m != 1 && st.n in st.rows ==> r.rows[st.n] == st.rows[st.n] + [rd])
            && (st.n !in st.rows ==> r.rows[st.n] == [rd]))
      && (st.n <= maxRows && EndsWithNewline(content) ==> r.n == st.n + 1 && r.m == 1)
      && (st.n <= maxRows && !EndsWithNewline(content) ==>
            r.n == st.n && r.m == st.m + (if IsBlank(content) then 0 else |content|))
  {
    RemoveCrProperties(line);
  }

  /** Writing keeps the stored rows clean. */
  lemma {:induction false} AddLinesClean(st: BoardState, data: RichData, lines: seq<string>, maxRows: nat)
    requires Clean(st.rows) && st.n >= 1
    ensures Clean(AddLines(st, data, lines, maxRows).rows) && AddLines(st, data, lines, maxRows).n >= 1
    decreases |lines|
  {
    if lines != [] {
      var next := AddLine(st, data, lines[0], maxRows);
      AddLineEffect(st, data, lines[0], maxRows);
      assert Clean(next.rows);
      AddLinesClean(next, data, lines[1..], maxRows);
    }
  }

  /**
   * Once the cursor is below the board nothing more is written on it: every
   * further piece, cleaned of carriage returns, goes to the overflow.
   */
  lemma {:induction false} AddLinesBelowBoard(st: BoardState, data: RichData, lines: seq<string>, maxRows: nat)
    requires st.n > maxRows
    ensures var r := AddLines(st, data, lines, maxRows);
      && r.rows == st.rows && r.n == st.n && r.m == st.m
      && |r.overflow| == |st.overflow| + |lines|
      && r.overflow[..|st.overflow|] == st.overflow
      && forall i | 0 <= i < |lines| :: r.overflow[|st.overflow| + i] == data.(text := RemoveCr(lines[i]))
    decreases |lines|
  {
    if lines != [] {
      var next := AddLine(st, data, lines[0], maxRows);
      AddLinesBelowBoard(next, data, lines[1..], maxRows);
      var r := AddLines(st, data, lines, maxRows);
      assert r.overflow[..|next.overflow|] == next.overflow;
      forall i | 0 <= i < |lines|
        ensures r.overflow[|st.overflow| + i] == data.(text := RemoveCr(lines[i]))
      {
        if i > 0 {
          assert lines[i] == lines[1..][i - 1];
        }
      }
    }
  }

  // ---------------------------------------------------------------------
  // Erasing.

  /**
   * EL on one row as the program does it: mode 1 up to the cursor, mode 2
   * the whole row, any other mode from just after the cursor on.
   */
  function EraseLineRow(rds: seq<RichData>, mode: byte, col: nat, maxCols: nat): seq<RichData>
  {
    if mode == 1 then EraseToCursorAsWritten(rds, col, 0)
    else if mode == 2 then EraseWhole(rds, maxCols)
    else EraseToEndAsWritten(rds, col)
  }

  /** EL: the cursor's row erased, if anything is written on it. */
  function LineErased(rows: map<nat, seq<RichData>>, mode: byte, row: nat, col: nat, maxCols: nat): map<nat, seq<RichData>>
  {
    if row in rows then rows[row := EraseLineRow(rows[row], mode, col, maxCols)] else rows
  }

  /** The rows numbered `lo..=hi` erased whole. */
  function WholeRows(rows: map<nat, seq<RichData>>, lo: int, hi: int, maxCols: nat): map<nat, seq<RichData>>
  {
    map k | k in rows :: if lo <= k <= hi then EraseWhole(rows[k], maxCols) else rows[k]
  }

  /**
   * ED: mode 1 erases the cursor's row up to the cursor, as EL mode 1
   * does, and every row above it; modes 2 and 3 erase every row of the
   * board; any other mode keeps the cursor's row up to and including the
   * cursor's column (with no special case for column 1) and erases the rest
   * of it, and every row below it down to the last row of the board.
   */
  function DisplayErased(rows: map<nat, seq<RichData>>, mode: byte, row: nat, col: nat, maxRows: nat, maxCols: nat)
    : map<nat, seq<RichData>>
  {
    if mode == 1 then WholeRows(LineErased(rows, 1, row, col, maxCols), 1, row - 1, maxCols)
    else if mode == 2 || mode == 3 then WholeRows(rows, 1, maxRows, maxCols)
    else
      var cur := if row in rows then rows[row := EraseFromCol(rows[row], col, 0)] else rows;
      WholeRows(cur, row + 1, maxRows, maxCols)
  }

  lemma BlankedPrefixKeepsClean(a: seq<RichData>, b: seq<RichData>)
    requires BlankedPrefix(a, b) && CleanRow(a)
    ensures CleanRow(b)
  {
    forall e | e in b
      ensures e.rewriteBoardData && '\r' !in e.text
    {
      var i :| 0 <= i < |b| && b[i] == e;
      assert Blanked(a[i], b[i]);
    }
  }

  lemma EraseWholeClean(rds: seq<RichData>, maxCols: nat)
    requires CleanRow(rds)
    ensures CleanRow(EraseWhole(rds, maxCols))
  {
    var r := EraseWhole(rds, maxCols);
    if r != [] {
      assert forall e | e in r :: e == r[0];
      assert forall j | 0 <= j < maxCols :: r[0].text[j] == ' ';
    }
  }

  /** Mode 1's outcome on a row: see `EraseToCursorAsWrittenEffect`. */
  predicate ErasedToCursor(orig: seq<RichData>, r: seq<RichData>, col: nat)
  {
    var k := Min(col, |RowText(orig)|);
    && |r| == |orig| && BlankedPrefix(orig, r)
    && (InsideEntry(orig, col, 0) ==> RowText(r) == Spaces(k) + RowText(orig)[k..])
    && (!InsideEntry(orig, col, 0) ==> RowText(r) == Spaces(|RowText(orig)|))
  }

  /** Mode 0's outcome on a row: the first `col` columns kept, only spaces after them. */
  predicate ErasedAfterCursor(orig: seq<RichData>, r: seq<RichData>, col: nat)
  {
    BlankedPrefix(orig, r) && KeptThenSpaces(RowText(orig), RowText(r), Min(col, |RowText(orig)|))
  }

  /**
   * EL on a row as the program does it: mode 1 keeps every entry and its
   * length, writing only spaces; it blanks the first `col` columns, as the
   * corrected erase does, when the cursor's column falls inside an entry,
   * and the whole row otherwise. Mode 2 leaves at most one entry, a full
   * row of spaces. Any other mode empties the row at column 1 and elsewhere
   * keeps the columns up to and including the cursor's and blanks the rest,
   * which is the corrected erase one column further right. Clean rows stay
   * clean.
   */
  lemma EraseLineRowEffect(rds: seq<RichData>, mode: byte, col: nat, maxCols: nat)
    requires CleanRow(rds)
    ensures var r := EraseLineRow(rds, mode, col, maxCols);
      && CleanRow(r)
      && (mode == 1 ==> ErasedToCursor(rds, r, col))
      && (mode == 1 && InsideEntry(rds, col, 0) ==> r == EraseToCursor(rds, col, 0))
      && (mode == 2 ==> |r| <= 1 && (r != [] ==> RowText(r) == Spaces(maxCols)))
      && (mode != 1 && mode != 2 ==> (col == 1 ==> r == []) && (col != 1 ==> ErasedAfterCursor(rds, r, col)))
      && (mode != 1 && mode != 2 && col >= 2 ==> r == EraseToEnd(rds, col + 1))
  {
    var r := EraseLineRow(rds, mode, col, maxCols);
    if mode == 1 {
      EraseToCursorAsWrittenEffect(rds, col);
      BlankedPrefixKeepsClean(rds, r);
    } else if mode == 2 {
      EraseWholeClean(rds, maxCols);
    } else {
      EraseToEndAsWrittenEffect(rds, col);
      BlankedPrefixKeepsClean(rds, r);
    }
  }

  /**
   * Erasing rows whole keeps every row number; each row in the range keeps
   * at most one entry, a full row of spaces; the rows outside the range are
   * untouched; clean rows stay clean.
   */
  lemma WholeRowsEffect(rows: map<nat, seq<RichData>>, lo: int, hi: int, maxCols: nat)
    requires Clean(rows)
    ensures var r := WholeRows(rows, lo, hi, maxCols);
      && r.Keys == rows.Keys
      && Clean(r)
      && (forall k | k in rows && lo <= k <= hi :: |r[k]| <= 1 && (r[k] != [] ==> RowText(r[k]) == Spaces(maxCols)))
      && (forall k | k in rows && !(lo <= k <= hi) :: r[k] == rows[k])
  {
    var r := WholeRows(rows, lo, hi, maxCols);
    forall k | k in r
      ensures k >= 1 && CleanRow(r[k])
    {
      EraseWholeClean(rows[k], maxCols);
    }
  }

  /** ED mode 0 on the cursor's row keeps the first `col` columns and blanks the rest. */
  lemma EraseFromColEffect(rds: seq<RichData>, col: nat)
    requires CleanRow(rds)
    ensures CleanRow(EraseFromCol(rds, col, 0)) && ErasedAfterCursor(rds, EraseFromCol(rds, col, 0), col)
  {
    EraseFromColRow(rds, col, 0);
    EraseFromColBlanks(rds, col, 0);
    BlankedPrefixKeepsClean(rds, EraseFromCol(rds, col, 0));
  }

  /** ED mode 1: the rows below the cursor are untouched and every row above it is erased whole. */
  lemma DisplayErasedAbove(rows: map<nat, seq<RichData>>, row: nat, col: nat, maxRows: nat, maxCols: nat)
    requires Clean(rows)
    ensures var r := DisplayErased(rows, 1, row, col, maxRows, maxCols);
      && r.Keys == rows.Keys && Clean(r)
      && (row in rows ==> ErasedToCursor(rows[row], r[row], col) && r[row] == EraseLineRow(rows[row], 1, col, maxCols))
      && (forall k | k in rows && k > row :: r[k] == rows[k])
      && (forall k | k in rows && k < row :: |r[k]| <= 1 && (r[k] != [] ==> RowText(r[k]) == Spaces(maxCols)))
  {
    if row in rows {
      EraseLineRowEffect(rows[row], 1, col, maxCols);
    }
    WholeRowsEffect(LineErased(rows, 1, row, col, maxCols), 1, row - 1, maxCols);
  }

  /** ED modes 2 and 3: every row of the board is erased whole and rows past it are left alone. */
  lemma DisplayErasedAll(rows: map<nat, seq<RichData>>, mode: byte, row: nat, col: nat, maxRows: nat, maxCols: nat)
    requires Clean(rows) && (mode == 2 || mode == 3)
    ensures var r := DisplayErased(rows, mode, row, col, maxRows, maxCols);
      && r.Keys == rows.Keys && Clean(r)
      && (forall k | k in rows ::
            if k <= maxRows then |r[k]| <= 1 && (r[k] != [] ==> RowText(r[k]) == Spaces(maxCols)) else r[k] == rows[k])
  {
    WholeRowsEffect(rows, 1, maxRows, maxCols);
  }

  /** ED's other modes: the rows above the cursor are untouched and the rows below it on the board are erased whole. */
  lemma DisplayErasedBelow(rows: map<nat, seq<RichData>>, mode: byte, row: nat, col: nat, maxRows: nat, maxCols: nat)
    requires Clean(rows) && mode != 1 && mode != 2 && mode != 3
    ensures var r := DisplayErased(rows, mode, row, col, maxRows, maxCols);
      && r.Keys == rows.Keys && Clean(r)
      && (row in rows ==> ErasedAfterCursor(rows[row], r[row], col))
      && (forall k | k in rows && k < row :: r[k] == rows[k])
      && (forall k | k in rows && row < k <= maxRows ::
            |r[k]| <= 1 && (r[k] != [] ==> RowText(r[k]) == Spaces(maxCols)))
      && (forall k | k in rows && k > maxRows && k != row :: r[k] == rows[k])
  {
    if row in rows {
      EraseFromColEffect(rows[row], col);
    }
    var cur := if row in rows then rows[row := EraseFromCol(rows[row], col, 0)] else rows;
    WholeRowsEffect(cur, row + 1, maxRows, maxCols);
  }

  /**
   * ED never adds or removes a row number and keeps the board clean. Mode 1
   * does to the cursor's row what EL mode 1 does, leaves the rows below the
   * cursor untouched and erases every row above it whole; modes 2 and 3
   * erase every row of the board whole and leave rows past the board alone;
   * any other mode keeps the cursor's row up to and including the cursor's
   * column and blanks the rest of it, leaves the rows above the cursor and
   * the rows past the board untouched and erases the rows below it, down to
   * the last row of the board, whole.
   */
  lemma DisplayErasedEffect(rows: map<nat, seq<RichData>>, mode: byte, row: nat, col: nat, maxRows: nat, maxCols: nat)
    requires Clean(rows)
    ensures var r := DisplayErased(rows, mode, row, col, maxRows, maxCols);
      && r.Keys == rows.Keys
      && Clean(r)
      && (mode == 2 || mode == 3 ==> forall k | k in rows ::
            if k <= maxRows then |r[k]| <= 1 && (r[k] != [] ==> RowText(r[k]) == Spaces(maxCols)) else r[k] == rows[k])
      && (mode == 1 && row in rows ==> ErasedToCursor(rows[row], r[row], col))
      && (mode == 1 && row in rows ==> r[row] == EraseLineRow(rows[row], 1, col, maxCols))
      && (mode == 1 ==> forall k | k in rows && k > row :: r[k] == rows[k])
      && (mode == 1 ==> forall k | k in rows && k < row :: |r[k]| <= 1 && (r[k] != [] ==> RowText(r[k]) == Spaces(maxCols)))
      && (mode != 1 && mode != 2 && mode != 3 && row in rows ==> ErasedAfterCursor(rows[row], r[row], col))
      && (mode != 1 && mode != 2 && mode != 3 ==> forall k | k in rows && k < row :: r[k] == rows[k])
      && (mode != 1 && mode != 2 && mode != 3 ==> forall k | k in rows && row < k <= maxRows ::
            |r[k]| <= 1 && (r[k] != [] ==> RowText(r[k]) == Spaces(maxCols)))
      && (mode != 1 && mode != 2 && mode != 3 ==> forall k | k in rows && k > maxRows && k != row :: r[k] == rows[k])
  {
    if mode == 1 {
      DisplayErasedAbove(rows, row, col, maxRows, maxCols);
    } else if mode == 2 || mode == 3 {
      DisplayErasedAll(rows, mode, row, col, maxRows, maxCols);
    } else {
      DisplayErasedBelow(rows, mode, row, col, maxRows, maxCols);
    }
  }

  /** ED keeps the board clean. */
  lemma DisplayErasedClean(rows: map<nat, seq<RichData>>, mode: byte, row: nat, col: nat, maxRows: nat, maxCols: nat)
    requires Clean(rows)
    ensures Clean(DisplayErased(rows, mode, row, col, maxRows, maxCols))
  {
    DisplayErasedEffect(rows, mode, row, col, maxRows, maxCols);
  }

  /**
   * EL mode 1 on the board with the cursor on column 2 of a row holding
   * "ab" and "cd": the program blanks both entries, although "cd" lies
   * wholly after the cursor; the corrected erase leaves "  cd".
   */
  lemma EraseInLineAtBoundary(a: RichData, b: RichData, maxCols: nat)
    requires a.text == "ab" && b.text == "cd"
    ensures var r := LineErased(map[1 := [a, b]], 1, 1, 2, maxCols);
      1 in r && RowText(r[1]) == "    " && RowText(EraseToCursor([a, b], 2, 0)) == "  cd"
  {
    EraseToCursorAtBoundary(a, b);
  }

  /**
   * EL and ED mode 0 on the board with the cursor on column 3 of "abcd":
   * the program keeps "abc", the character under the cursor included,
   * where erasing from the cursor inclusive leaves "ab". At column 1 EL
   * empties the row while ED keeps its first character.
   */
  lemma EraseAfterCursorKeepsCursorColumn(a: RichData, maxCols: nat)
    requires a.text == "abcd"
    ensures var r := LineErased(map[1 := [a]], 0, 1, 3, maxCols); 1 in r && RowText(r[1]) == "abc "
    ensures var r := DisplayErased(map[1 := [a]], 0, 1, 3, 1, maxCols); 1 in r && RowText(r[1]) == "abc "
    ensures RowText(EraseToEnd([a], 3)) == "ab  "
    ensures var r := LineErased(map[1 := [a]], 0, 1, 1, maxCols); 1 in r && r[1] == []
    ensures var r := DisplayErased(map[1 := [a]], 0, 1, 1, 1, maxCols); 1 in r && RowText(r[1]) == "a   "
  {
    EraseToEndKeepsCursorColumn(a);
    var w := EraseFromCol([a], 1, 0);
    assert [a][1..] == [];
    assert "abcd"[..1] == "a" && Spaces(3) == "   " && "a" + Spaces(3) == "a   ";
    assert w == [a.(text := "a   ")] + EraseFromCol([], 1, 4);
    assert RowText(w) == "a   " + RowText([]);
    var rows := map[1 := [a]];
    WholeRowsEmpty(rows[1 := EraseFromCol([a], 3, 0)], 2, 1, maxCols);
    WholeRowsEmpty(rows[1 := w], 2, 1, maxCols);
  }

  /** Extending the erased range one row downwards erases that row whole. */
  lemma WholeRowsStepDown(rows: map<nat, seq<RichData>>, k: nat, hi: int, maxCols: nat)
    requires k <= hi
    ensures var w := WholeRows(rows, k + 1, hi, maxCols);
      WholeRows(rows, k, hi, maxCols) == if k in w then w[k := EraseWhole(w[k], maxCols)] else w
  {
  }

  /** Extending the erased range one row upwards erases that row whole. */
  lemma WholeRowsStepUp(rows: map<nat, seq<RichData>>, lo: int, k: nat, maxCols: nat)
    requires lo <= k
    ensures var w := WholeRows(rows, lo, k - 1, maxCols);
      WholeRows(rows, lo, k, maxCols) == if k in w then w[k := EraseWhole(w[k], maxCols)] else w
  {
  }

  /** An empty range erases nothing. */
  lemma WholeRowsEmpty(rows: map<nat, seq<RichData>>, lo: int, hi: int, maxCols: nat)
    requires hi < lo
    ensures WholeRows(rows, lo, hi, maxCols) == rows
  {
  }

  // ---------------------------------------------------------------------
  // The row loops.

  /** Writing element `i` of a sequence splits it around that element. */
  lemma UpdateSplit<T>(r: seq<T>, i: nat, x: T)
    requires i < |r|
    ensures r[i := x] == r[..i] + [x] + r[i + 1..]
    ensures r[i := x][..i + 1] == r[..i] + [x]
    ensures r[i := x][i + 1..] == r[i + 1..]
  {
  }

  /** One step of the mode 1 scan at entry `i`, with `sum` characters before it. */
  lemma EraseToCursorStep(rds: seq<RichData>, i: nat, col: nat, sum: nat)
    requires i < |rds|
    ensures var t := rds[i].text;
      EraseToCursorAsWritten(rds[i..], col, sum) ==
        if sum + |t| > col && sum < col then [rds[i].(text := Spaces(col - sum) + t[col - sum..])] + rds[i + 1..]
        else [BlankEntry(rds[i])] + EraseToCursorAsWritten(rds[i + 1..], col, sum + |t|)
  {
    assert rds[i..][1..] == rds[i + 1..];
  }

  /** An entry with its whole text overwritten by spaces, as the mode 1 scan leaves the entries it passes. */
  function BlankEntry(rd: RichData): RichData
  {
    rd.(text := Spaces(|rd.text|))
  }

  /** The mode 1 scan stops at entry `i`, which holds the column: the row is then complete. */
  lemma EraseToCursorStop(rds: seq<RichData>, r: seq<RichData>, i: nat, col: nat, sum: nat)
    requires i < |r| == |rds| && r[i..] == rds[i..]
    requires EraseToCursorAsWritten(rds, col, 0) == r[..i] + EraseToCursorAsWritten(rds[i..], col, sum)
    requires sum + |rds[i].text| > col && sum < col
    ensures EraseToCursorAsWritten(rds, col, 0) == r[i := r[i].(text := Spaces(col - sum) + r[i].text[col - sum..])]
  {
    EraseToCursorStep(rds, i, col, sum);
    assert r[i] == rds[i..][0] == rds[i];
    UpdateSplit(r, i, r[i].(text := Spaces(col - sum) + r[i].text[col - sum..]));
  }

  /** The mode 1 scan passes entry `i`, blanking it whole, and its invariant carries over. */
  lemma EraseToCursorAdvance(rds: seq<RichData>, r: seq<RichData>, i: nat, col: nat, sum: nat)
    requires i < |r| == |rds| && r[i..] == rds[i..]
    requires EraseToCursorAsWritten(rds, col, 0) == r[..i] + EraseToCursorAsWritten(rds[i..], col, sum)
    requires !(sum + |rds[i].text| > col && sum < col)
    ensures var r' := r[i := BlankEntry(r[i])];
      && r'[i + 1..] == rds[i + 1..]
      && EraseToCursorAsWritten(rds, col, 0) == r'[..i + 1] + EraseToCursorAsWritten(rds[i + 1..], col, sum + |rds[i].text|)
  {
    var x := BlankEntry(rds[i]);
    var rest := EraseToCursorAsWritten(rds[i + 1..], col, sum + |rds[i].text|);
    assert EraseToCursorAsWritten(rds[i..], col, sum) == [x] + rest by {
      EraseToCursorStep(rds, i, col, sum);
    }
    assert r[i] == rds[i] by {
      assert r[i] == rds[i..][0];
    }
    assert r[i := x][..i + 1] == r[..i] + [x] && r[i := x][i + 1..] == rds[i + 1..] by {
      UpdateSplit(r, i, x);
    }
    assert r[..i] + ([x] + rest) == (r[..i] + [x]) + rest;
  }

  /**
   * Mode 1 of EL and ED on one row, by the program's scan over the entries
   * with a running column count: it stops at the entry that holds the
   * column strictly inside it, and blanks every entry it passes.
   */
  method EraseToCursorIn(rds: seq<RichData>, col: nat) returns (r: seq<RichData>)
    ensures r == EraseToCursorAsWritten(rds, col, 0)
  {
    r := rds;
    var sum: nat := 0;
    var i := 0;
    while i < |r|
      invariant 0 <= i <= |r| == |rds|
      invariant r[i..] == rds[i..]
      invariant EraseToCursorAsWritten(rds, col, 0) == r[..i] + EraseToCursorAsWritten(rds[i..], col, sum)
    {
      var len := |r[i].text|;
      if sum + len > col && sum < col {
        EraseToCursorStop(rds, r, i, col, sum);
        r := r[i := r[i].(text := Spaces(col - sum) + r[i].text[col - sum..])];
        return;
      }
      EraseToCursorAdvance(rds, r, i, col, sum);
      r := r[i := BlankEntry(r[i])];
      sum := sum + len;
      i := i + 1;
    }
    assert r == r[..i] + rds[i..];
  }

  /** One step of the mode 0 scan at entry `i`, with `sum` characters before it. */
  lemma EraseFromColStep(rds: seq<RichData>, i: nat, keep: nat, sum: nat)
    requires i < |rds|
    ensures var t := rds[i].text;
      EraseFromCol(rds[i..], keep, sum) ==
        if sum + |t| > keep then
          if keep >= sum then [rds[i].(text := t[..keep - sum] + Spaces(sum + |t| - keep))] + EraseFromCol(rds[i + 1..], keep, sum + |t|)
          else []
        else [rds[i]] + EraseFromCol(rds[i + 1..], keep, sum + |t|)
  {
    assert rds[i..][1..] == rds[i + 1..];
  }

  /**
   * An entry as the mode 0 scan leaves it when it goes on past it: blanked
   * from the kept columns on when it reaches past them, as it was otherwise.
   */
  function KeptEntry(rd: RichData, keep: nat, sum: nat): RichData
  {
    var t := rd.text;
    if sum + |t| > keep && keep >= sum then rd.(text := t[..keep - sum] + Spaces(sum + |t| - keep)) else rd
  }

  /** The mode 0 scan's invariant carries over entry `i` when the scan does not stop there. */
  lemma EraseFromColAdvance(rds: seq<RichData>, r: seq<RichData>, i: nat, keep: nat, sum: nat)
    requires i < |r| == |rds| && r[i..] == rds[i..]
    requires EraseFromCol(rds, keep, 0) == r[..i] + EraseFromCol(rds[i..], keep, sum)
    requires sum + |rds[i].text| <= keep || keep >= sum
    ensures var r' := r[i := KeptEntry(r[i], keep, sum)];
      && r'[i + 1..] == rds[i + 1..]
      && EraseFromCol(rds, keep, 0) == r'[..i + 1] + EraseFromCol(rds[i + 1..], keep, sum + |rds[i].text|)
  {
    EraseFromColStep(rds, i, keep, sum);
    assert r[i] == rds[i..][0] == rds[i];
    UpdateSplit(r, i, KeptEntry(r[i], keep, sum));
  }

  /** The mode 0 scan stops at entry `i` when it starts past the kept columns. */
  lemma EraseFromColStop(rds: seq<RichData>, i: nat, keep: nat, sum: nat)
    requires i < |rds| && sum + |rds[i].text| > keep && keep < sum
    ensures EraseFromCol(rds[i..], keep, sum) == []
  {
    EraseFromColStep(rds, i, keep, sum);
  }

  /**
   * Mode 0 of EL and ED on one row, keeping the first `keep` characters:
   * the program's scan over the entries, blanking the tail of the entry
   * that reaches past them and then dropping every entry after it.
   */
  method EraseFromColIn(rds: seq<RichData>, keep: nat) returns (r: seq<RichData>)
    ensures r == EraseFromCol(rds, keep, 0)
  {
    r := rds;
    var sum: nat := 0;
    var i := 0;
    var drain := false;
    var idx := 0;
    while i < |r|
      invariant 0 <= i <= |r| == |rds|
      invariant r[i..] == rds[i..]
      invariant !drain
      invariant EraseFromCol(rds, keep, 0) == r[..i] + EraseFromCol(rds[i..], keep, sum)
    {
      var len := |r[i].text|;
      if sum + len > keep && keep < sum {
        EraseFromColStop(rds, i, keep, sum);
        drain := true;
        idx := i;
        break;
      }
      EraseFromColAdvance(rds, r, i, keep, sum);
      r := r[i := KeptEntry(r[i], keep, sum)];
      sum := sum + len;
      i := i + 1;
    }
    if drain {
      r := r[..idx];
    } else {
      assert r[..i] == r;
    }
  }

  /**
   * ED mode 1's scan over the rows above row `row`: from `row - 1` up to
   * row 1, each row that holds entries is erased whole.
   */
  method EraseRowsAbove(rows: map<nat, seq<RichData>>, row: nat, maxCols: nat) returns (r: map<nat, seq<RichData>>)
    requires row >= 1
    ensures r == WholeRows(rows, 1, row - 1, maxCols)
  {
    r := rows;
    var k := row;
    WholeRowsEmpty(rows, k, row - 1, maxCols);
    while k > 1
      invariant 1 <= k <= row
      invariant r == WholeRows(rows, k, row - 1, maxCols)
    {
      k := k - 1;
      WholeRowsStepDown(rows, k, row - 1, maxCols);
      if k in r {
        r := r[k := EraseWhole(r[k], maxCols)];
      }
    }
  }

  /**
   * ED's scan over the rows `lo..=hi` (every row of the board for modes 2
   * and 3, the rows below the cursor for mode 0): each row that holds
   * entries is erased whole.
   */
  method EraseRowsFrom(rows: map<nat, seq<RichData>>, lo: nat, hi: nat, maxCols: nat) returns (r: map<nat, seq<RichData>>)
    requires lo >= 1
    ensures r == WholeRows(rows, lo, hi, maxCols)
  {
    r := rows;
    var k := lo - 1;
    WholeRowsEmpty(rows, lo, k, maxCols);
    while k < hi
      invariant lo - 1 <= k
      invariant k <= hi || k == lo - 1
      invariant r == WholeRows(rows, lo, k, maxCols)
    {
      k := k + 1;
      WholeRowsStepUp(rows, lo, k, maxCols);
      if k in r {
        r := r[k := EraseWhole(r[k], maxCols)];
      }
    }
    if hi < k {
      WholeRowsEmpty(rows, lo, hi, maxCols);
      WholeRowsEmpty(rows, lo, k, maxCols);
    }
  }

  /**
   * The body of `erase_in_display` on the rows: the cursor's row by the
   * mode 1 or mode 0 scan, then the rows above it, the rows of the board or
   * the rows below it, each erased whole.
   */
  method EraseDisplayRows(rows: map<nat, seq<RichData>>, mode: byte, row: nat, col: nat, maxRows: nat, maxCols: nat)
    returns (r: map<nat, seq<RichData>>)
    requires row >= 1
    ensures r == DisplayErased(rows, mode, row, col, maxRows, maxCols)
  {
    r := rows;
    if mode == 1 {
      if row in r {
        var rds := EraseToCursorIn(r[row], col);
        r := r[row := rds];
      }
      r := EraseRowsAbove(r, row, maxCols);
    } else if mode == 2 || mode == 3 {
      r := EraseRowsFrom(r, 1, maxRows, maxCols);
    } else {
      if row in r {
        var rds := EraseFromColIn(r[row], col);
        r := r[row := rds];
      }
      r := EraseRowsFrom(r, row + 1, maxRows, maxCols);
    }
  }

  /** The height formula the board keeps: `rows` lines with a gap between neighbours. */
  function BottomY(topY: nat, rows: nat, lineHeight: nat, lineSpace: nat): nat
    requires rows >= 1
  {
    topY + rows * lineHeight + lineSpace * (rows - 1)
  }

  class ReWriteBoard {
    var maxRows: nat
    var maxCols: nat
    var topY: nat
    var bottomY: nat
    var lineHeight: nat
    var lineSpace: nat
    /** Row number to the entries written on that row; a `BTreeMap`, so iterated in row order. */
    var lineDataMap: map<nat, seq<RichData>>
    var cursor: CursorPos

    ghost predicate Valid()
      reads this, cursor
    {
      cursor.Valid() && maxRows >= 1
      && bottomY == BottomY(topY, maxRows, lineHeight, lineSpace)
      && Clean(lineDataMap)
    }

    /**
     * `ReWriteBoard::new`: an empty board with the cursor at (1, 1). The
     * row count must be at least 1, since the program computes `rows - 1`
     * in unsigned arithmetic.
     */
    constructor (maxRows: nat, maxCols: nat, topY: nat, lineHeight: nat, lineSpace: nat)
      requires maxRows >= 1
      ensures Valid() && fresh(cursor)
      ensures this.maxRows == maxRows && this.maxCols == maxCols && this.topY == topY
      ensures this.lineHeight == lineHeight && this.lineSpace == lineSpace
      ensures bottomY == topY + maxRows * lineHeight + lineSpace * (maxRows - 1)
      ensures lineDataMap == map[]
      ensures cursor.n == 1 && cursor.m == 1 && cursor.maxN == Max(maxRows, 2) && cursor.maxM == Max(maxCols, 2)
    {
      this.maxRows := maxRows;
      this.maxCols := maxCols;
      this.topY := topY;
      this.bottomY := topY + maxRows * lineHeight + lineSpace * (maxRows - 1);
      this.lineHeight := lineHeight;
      this.lineSpace := lineSpace;
      this.lineDataMap := map[];
      this.cursor := new CursorPos(1, 1, maxRows, maxCols);
    }

    /**
     * `ReWriteBoard::resize`: new row and column counts and the bottom
     * recomputed; the rows already written and the cursor, including its
     * own limits, are left as they are.
     */
    method Resize(rows: nat, cols: nat)
      requires Valid() && rows >= 1
      modifies this
      ensures Valid()
      ensures maxRows == rows && maxCols == cols
      ensures bottomY == topY + rows * lineHeight + lineSpace * (rows - 1)
      ensures topY == old(topY) && lineHeight == old(lineHeight) && lineSpace == old(lineSpace)
      ensures lineDataMap == old(lineDataMap) && cursor == old(cursor)
    {
      maxRows := rows;
      maxCols := cols;
      bottomY := topY + rows * lineHeight + lineSpace * (rows - 1);
    }

    /**
     * `ReWriteBoard::add_data`: `data`'s text, split after each CR LF,
     * written piece by piece at the cursor. Returns every entry on the
     * board, row by row in ascending row order, followed by the pieces that
     * fell below it.
     */
    method AddData(data: RichData) returns (all: seq<RichData>)
      requires Valid()
      modifies this, cursor
      ensures Valid()
      ensures var st := AddLines(BoardState(old(lineDataMap), old(cursor.n), old(cursor.m), []),
                                 data, SplitLines(data.text), maxRows);
        && lineDataMap == st.rows && cursor.n == st.n && cursor.m == st.m
        && all == FlattenRows(st.rows) + st.overflow
      ensures cursor == old(cursor) && cursor.maxN == old(cursor.maxN) && cursor.maxM == old(cursor.maxM)
      ensures maxRows == old(maxRows) && maxCols == old(maxCols) && topY == old(topY) && bottomY == old(bottomY)
      ensures lineHeight == old(lineHeight) && lineSpace == old(lineSpace)
    {
      var lines := SplitLines(data.text);
      ghost var start := BoardState(lineDataMap, cursor.n, cursor.m, []);
      AddLinesClean(start, data, lines, maxRows);
      var overflow: seq<RichData> := [];
      var i := 0;
      while i < |lines|
        invariant 0 <= i <= |lines|
        invariant cursor == old(cursor) && cursor.Valid()
        invariant cursor.maxN == old(cursor.maxN) && cursor.maxM == old(cursor.maxM)
        invariant maxRows == old(maxRows) && maxCols == old(maxCols) && topY == old(topY) && bottomY == old(bottomY)
        invariant lineHeight == old(lineHeight) && lineSpace == old(lineSpace)
        invariant AddLines(start, data, lines, maxRows)
               == AddLines(BoardState(lineDataMap, cursor.n, cursor.m, overflow), data, lines[i..], maxRows)
      {
        assert lines[i..][1..] == lines[i + 1..];
        overflow := WriteLine(data, lines[i], overflow);
        i := i + 1;
      }
      all := FlattenRows(lineDataMap) + overflow;
    }

    /** One pass of `add_data`'s loop: the piece `line` of `data`'s text written at the cursor. */
    method WriteLine(data: RichData, line: string, overflow: seq<RichData>) returns (spill: seq<RichData>)
      requires cursor.Valid()
      modifies this, cursor
      ensures cursor == old(cursor) && cursor.Valid()
      ensures cursor.maxN == old(cursor.maxN) && cursor.maxM == old(cursor.maxM)
      ensures maxRows == old(maxRows) && maxCols == old(maxCols) && topY == old(topY) && bottomY == old(bottomY)
      ensures lineHeight == old(lineHeight) && lineSpace == old(lineSpace)
      ensures BoardState(lineDataMap, cursor.n, cursor.m, spill)
           == AddLine(BoardState(old(lineDataMap), old(cursor.n), old(cursor.m), overflow), data, line, maxRows)
    {
      spill := overflow;
      var row, col := cursor.n, cursor.m;
      var content := RemoveCr(line);
      if row > maxRows {
        spill := overflow + [data.(text := content)];
        return;
      }
      var rd := data.(text := content, rewriteBoardData := true);
      ghost var st := BoardState(lineDataMap, cursor.n, cursor.m, overflow);
      if !IsBlank(content) {
        if row in lineDataMap {
          var rds := lineDataMap[row];
          if col == 1 {
            rds := [];
          }
          assert rds == (if row in st.rows && col != 1 then st.rows[row] else []);
          lineDataMap := lineDataMap[row := rds + [rd]];
        } else {
          assert [] + [rd] == [rd];
          lineDataMap := lineDataMap[row := [rd]];
        }
        cursor.AddM(|content|);
      }
      if EndsWithNewline(content) {
        cursor.AddN(1);
        cursor.SetM(1);
      }
    }

    /** `ReWriteBoard::erase_in_line`: EL at the cursor; the cursor does not move. */
    method EraseInLine(mode: byte)
      requires Valid()
      modifies this
      ensures Valid()
      ensures lineDataMap == LineErased(old(lineDataMap), mode, cursor.n, cursor.m, maxCols)
      ensures maxRows == old(maxRows) && maxCols == old(maxCols) && topY == old(topY) && bottomY == old(bottomY)
      ensures lineHeight == old(lineHeight) && lineSpace == old(lineSpace) && cursor == old(cursor)
    {
      var row, col := cursor.n, cursor.m;
      if row in lineDataMap {
        var rds := lineDataMap[row];
        EraseLineRowEffect(rds, mode, col, maxCols);
        if mode == 1 {
          rds := EraseToCursorIn(rds, col);
        } else if mode == 2 {
          rds := EraseWhole(rds, maxCols);
        } else if col == 1 {
          rds := [];
        } else {
          rds := EraseFromColIn(rds, col);
        }
        lineDataMap := lineDataMap[row := rds];
      }
    }

    /** `ReWriteBoard::erase_in_display`: ED at the cursor; the cursor does not move. */
    method EraseInDisplay(mode: byte)
      requires Valid()
      modifies this
      ensures Valid()
      ensures lineDataMap == DisplayErased(old(lineDataMap), mode, cursor.n, cursor.m, maxRows, maxCols)
      ensures maxRows == old(maxRows) && maxCols == old(maxCols) && topY == old(topY) && bottomY == old(bottomY)
      ensures lineHeight == old(lineHeight) && lineSpace == old(lineSpace) && cursor == old(cursor)
    {
      DisplayErasedClean(lineDataMap, mode, cursor.n, cursor.m, maxRows, maxCols);
      lineDataMap := EraseDisplayRows(lineDataMap, mode, cursor.n, cursor.m, maxRows, maxCols);
    }
  }
}
