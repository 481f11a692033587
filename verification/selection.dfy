/**
 * Text selection by dragging. Each laid-out line piece of a segment keeps
 * the range of its characters that is selected; a drag from one click
 * point to another selects, in reading order, the rest of the first
 * piece, every piece in between and the start of the last piece, and the
 * selected characters of those pieces are copied one piece after another.
 *
 * Character positions count Unicode scalar values, so `line[i]` is the
 * `i`-th character the program reaches with `chars()`.
 */
module Selection {
  import opened Common
  import opened Geometry

  /**
   * The characters `copy_selection` takes from `line` for a selected range
   * `(from, to)`: skip `from`, then take `max(to, from) - from`, as far as
   * the line goes.
   */
  function SelectedText(line: string, range: Option<(nat, nat)>): (t: string)
    ensures |t| <= |line|
    ensures range.None? ==> t == []
    ensures range.Some? && range.value.0 <= range.value.1 <= |line| ==> t == line[range.value.0..range.value.1]
    ensures range.Some? && range.value.1 <= range.value.0 ==> t == []
    ensures range.Some? && range.value.0 <= |line| <= range.value.1 ==> t == line[range.value.0..]
  {
    match range
    case None => []
    case Some((from, to)) =>
      var lo := Min(from, |line|);
      var hi := Min(Max(to, from), |line|);
      line[lo..hi]
  }

  /** One laid-out line of a segment and its selected character range. */
  class LinePiece {
    var line: string
    var selectedRange: Option<(nat, nat)>

    /** A piece of `line` with nothing selected. */
    constructor (line: string)
      ensures this.line == line && selectedRange.None?
    {
      this.line := line;
      selectedRange := None;
    }

    /** `select_from`: from character `from` to the end of the piece. */
    method SelectFrom(from: nat)
      modifies this
      ensures selectedRange == Some((from, |line|)) && line == old(line)
      ensures from <= |line| ==> SelectedText(line, selectedRange) == line[from..]
    {
      selectedRange := Some((from, |line|));
    }

    /** `select_to`: from the start of the piece up to, not including, character `to`. */
    method SelectTo(to: nat)
      modifies this
      ensures selectedRange == Some((0, to)) && line == old(line)
      ensures to <= |line| ==> SelectedText(line, selectedRange) == line[..to]
    {
      selectedRange := Some((0, to));
    }

    /** `select_range`. */
    method SelectRange(from: nat, to: nat)
      modifies this
      ensures selectedRange == Some((from, to)) && line == old(line)
    {
      selectedRange := Some((from, to));
    }

    /** `deselect`: nothing is selected. */
    method Deselect()
      modifies this
      ensures selectedRange.None? && line == old(line)
      ensures SelectedText(line, selectedRange) == []
    {
      selectedRange := None;
    }

    /** `select_all`: the whole piece, so that copying gives the whole line. */
    method SelectAll()
      modifies this
      ensures selectedRange == Some((0, |line|)) && line == old(line)
      ensures SelectedText(line, selectedRange) == line
    {
      selectedRange := Some((0, |line|));
    }

    /**
     * `copy_selection`: appends the selected characters to `selection`,
     * one at a time.
     */
    method CopySelection(selection: string) returns (s: string)
      ensures s == selection + SelectedText(line, selectedRange)
    {
      s := selection;
      if selectedRange.Some? {
        var (from, to) := selectedRange.value;
        var count := Max(to, from) - from;
        var i, taken := from, 0;
        while taken < count && i < |line|
          invariant i == from + taken && taken <= count
          invariant from <= |line| ==> s == selection + line[from..Min(i, |line|)]
          invariant from > |line| ==> s == selection
        {
          s := s + [line[i]];
          i, taken := i + 1, taken + 1;
        }
      }
    }
  }

  /** The text copied from a list of pieces: each piece's selection, in list order. */
  function CopiedFrom(ps: seq<LinePiece>): string
    reads set p | p in ps
  {
    if ps == [] then [] else CopiedFrom(ps[..|ps| - 1]) + SelectedText(ps[|ps| - 1].line, ps[|ps| - 1].selectedRange)
  }

  /** `copy_pieces`: the selections of the pieces, concatenated in list order. */
  method CopyPieces(ps: seq<LinePiece>) returns (s: string)
    ensures s == CopiedFrom(ps)
  {
    s := [];
    var k := 0;
    while k < |ps|
      invariant 0 <= k <= |ps|
      invariant s == CopiedFrom(ps[..k])
    {
      s := ps[k].CopySelection(s);
      assert ps[..k + 1][..k] == ps[..k];
      k := k + 1;
    }
    assert ps[..k] == ps;
  }

  /**
   * `clear_selected_pieces`: every piece of the list loses its selection and
   * keeps its line; the list itself is emptied, and `rest` is what remains of it.
   */
  method ClearSelectedPieces(ps: seq<LinePiece>) returns (rest: seq<LinePiece>)
    modifies set p | p in ps
    ensures forall p | p in ps :: p.selectedRange.None? && p.line == old(p.line)
    ensures CopiedFrom(ps) == []
    ensures rest == [] && CopiedFrom(rest) == []
  {
    var k := 0;
    while k < |ps|
      invariant 0 <= k <= |ps|
      invariant forall j | 0 <= j < k :: ps[j].selectedRange.None?
      invariant forall p | p in ps :: p.line == old(p.line)
    {
      ps[k].Deselect();
      k := k + 1;
    }
    NothingCopied(ps);
    rest := [];
  }

  /** Pieces without a selection copy nothing. */
  lemma {:induction false} NothingCopied(ps: seq<LinePiece>)
    requires forall p | p in ps :: p.selectedRange.None?
    ensures CopiedFrom(ps) == []
  {
    if ps != [] {
      NothingCopied(ps[..|ps| - 1]);
    }
  }

  // ---------------------------------------------------------------------
  // Which pieces a drag selects.

  /** One selection step: piece `piece` of segment `rd` gets the range `(from, to)`. */
  datatype Sel = Sel(rd: nat, piece: nat, from: nat, to: nat)

  /**
   * The drag's end points in reading order, as `select_text` swaps them:
   * the start point is taken as the end when it lies on the bottom edge of
   * the dragged rectangle.
   */
  function ReadingOrder(fp: ClickPoint, tp: ClickPoint): (r: (ClickPoint, ClickPoint))
    ensures r == (fp, tp) || r == (tp, fp)
    ensures fp.y < tp.y ==> r == (fp, tp)
    ensures fp.y >= tp.y ==> r == (tp, fp)
  {
    var (lt, br) := CornerRect(ToRect(fp, tp));
    if (br.x == fp.x && br.y == fp.y) || (lt.x == fp.x && br.y == fp.y) then (tp, fp) else (fp, tp)
  }

  /** `select_piece_from_or_to`: selects from or up to `pos` in piece `pi` of segment `rd`, if it exists. */
  function FromOrTo(lines: seq<seq<string>>, rd: nat, pi: nat, pos: nat, from: bool): (r: seq<Sel>)
    requires rd < |lines|
    ensures |r| <= 1
    ensures |r| == 1 <==> pi < |lines[rd]|
    ensures |r| == 1 ==> r[0].rd == rd && r[0].piece == pi
  {
    if pi < |lines[rd]| then
      [if from then Sel(rd, pi, pos, |lines[rd][pi]|) else Sel(rd, pi, 0, pos)]
    else []
  }

  /** Every existing piece of segment `rd` from index `lo` up to `hi`, each selected whole. */
  function AllOf(lines: seq<seq<string>>, rd: nat, lo: nat, hi: nat): (r: seq<Sel>)
    requires rd < |lines|
    ensures |r| == Max(0, Min(hi, |lines[rd]|) - lo)
    ensures forall k | 0 <= k < |r| :: lo + k < |lines[rd]| && r[k] == Sel(rd, lo + k, 0, |lines[rd][lo + k]|)
    decreases hi - lo
  {
    if lo >= hi || lo >= |lines[rd]| then []
    else [Sel(rd, lo, 0, |lines[rd][lo]|)] + AllOf(lines, rd, lo + 1, hi)
  }

  /** Every piece of every existing segment from index `lo` up to `hi`, each selected whole. */
  function MiddleAll(lines: seq<seq<string>>, lo: nat, hi: nat): seq<Sel>
    decreases hi - lo
  {
    if lo >= hi || lo >= |lines| then []
    else AllOf(lines, lo, 0, |lines[lo]|) + MiddleAll(lines, lo + 1, hi)
  }

  /** The first segment of a drag across segments: the rest of it from the start point's piece on. */
  function StartSegment(lines: seq<seq<string>>, rd: nat, lt: ClickPoint): seq<Sel>
  {
    if rd < |lines| then
      FromOrTo(lines, rd, lt.pieceIndex, lt.charIndex, true) + AllOf(lines, rd, lt.pieceIndex + 1, |lines[rd]|)
    else []
  }

  /** The last segment of a drag across segments: its pieces up to the end point, that character included. */
  function EndSegment(lines: seq<seq<string>>, rd: nat, br: ClickPoint): seq<Sel>
  {
    if rd < |lines| then
      AllOf(lines, rd, 0, br.pieceIndex) + FromOrTo(lines, rd, br.pieceIndex, br.charIndex + 1, false)
    else []
  }

  /**
   * A drag within one segment: the rest of the start piece, the pieces in
   * between and the start of the end piece; or, within one piece, the
   * characters from one point to the other, both included.
   */
  function OneSegment(lines: seq<seq<string>>, rd: nat, lt: ClickPoint, br: ClickPoint): seq<Sel>
  {
    var f, t := lt.pieceIndex, br.pieceIndex;
    if rd < |lines| then
      if t > f then
        FromOrTo(lines, rd, f, lt.charIndex, true) + AllOf(lines, rd, f + 1, t)
        + FromOrTo(lines, rd, t, br.charIndex + 1, false)
      else if f < |lines[rd]| then
        var (fci, tci) := if lt.charIndex >= br.charIndex + 1 then (br.charIndex, lt.charIndex + 1) else (lt.charIndex, br.charIndex + 1);
        [Sel(rd, f, fci, tci)]
      else []
    else []
  }

  /**
   * The piece-range part of `select_text`: the selection steps a drag from
   * `fp` to `tp` over segments `rStart..=rEnd` makes, in the order the
   * program makes them. Across segments: the rest of the first segment
   * from the start point, all segments in between, the last segment up to
   * the end point.
   */
  function SelectPlan(fp: ClickPoint, tp: ClickPoint, lines: seq<seq<string>>, rStart: nat, rEnd: nat): (r: seq<Sel>)
    requires rStart <= rEnd
    ensures InReadingOrder(r) && WithinSegments(lines, r, rStart, rEnd)
  {
    var (lt, br) := ReadingOrder(fp, tp);
    if rEnd - rStart > 0 then
      var first, middle, last := StartSegment(lines, rStart, lt), MiddleAll(lines, rStart + 1, rEnd), EndSegment(lines, rEnd, br);
      StartSegmentProperties(lines, rStart, lt);
      MiddleAllProperties(lines, rStart + 1, rEnd);
      EndSegmentProperties(lines, rEnd, br);
      Chain(lines, first, middle, rStart, rStart, rStart + 1, rEnd - 1);
      Chain(lines, first + middle, last, rStart, rEnd - 1, rEnd, rEnd);
      first + middle + last
    else
      OneSegmentProperties(lines, rStart, lt, br);
      OneSegment(lines, rStart, lt, br)
  }

  /** The text copied after a drag: the selected characters of each selected piece, in order. */
  function CopiedText(lines: seq<seq<string>>, plan: seq<Sel>): string
  {
    if plan == [] then []
    else
      var s := plan[0];
      (if s.rd < |lines| && s.piece < |lines[s.rd]| then SelectedText(lines[s.rd][s.piece], Some((s.from, s.to))) else [])
      + CopiedText(lines, plan[1..])
  }

  /** `a` comes before `b` in reading order: an earlier segment, or an earlier piece of the same one. */
  predicate Before(a: Sel, b: Sel)
  {
    a.rd < b.rd || (a.rd == b.rd && a.piece < b.piece)
  }

  /** The steps go strictly forward in reading order, so no piece is selected twice. */
  predicate InReadingOrder(plan: seq<Sel>)
  {
    forall i, j | 0 <= i < j < |plan| :: Before(plan[i], plan[j])
  }

  /** Every step names an existing piece of a segment in `lo..=hi`. */
  predicate WithinSegments(lines: seq<seq<string>>, plan: seq<Sel>, lo: int, hi: int)
  {
    forall k | 0 <= k < |plan| :: lo <= plan[k].rd <= hi && plan[k].rd < |lines| && plan[k].piece < |lines[plan[k].rd]|
  }

  lemma InReadingOrderConcat(a: seq<Sel>, b: seq<Sel>)
    requires InReadingOrder(a) && InReadingOrder(b)
    requires forall i, j | 0 <= i < |a| && 0 <= j < |b| :: Before(a[i], b[j])
    ensures InReadingOrder(a + b)
  {
    forall i, j | 0 <= i < j < |a + b|
      ensures Before((a + b)[i], (a + b)[j])
    {
      if j < |a| {
        assert Before(a[i], a[j]);
      } else if i >= |a| {
        assert Before(b[i - |a|], b[j - |a|]);
      } else {
        assert Before(a[i], b[j - |a|]);
      }
    }
  }

  /**
   * The pieces in between are selected in reading order, each existing
   * piece of every existing segment in `lo..hi` selected whole.
   */
  lemma {:induction false} MiddleAllProperties(lines: seq<seq<string>>, lo: nat, hi: nat)
    ensures InReadingOrder(MiddleAll(lines, lo, hi))
    ensures WithinSegments(lines, MiddleAll(lines, lo, hi), lo, hi - 1)
    ensures forall i, j | lo <= i < hi && i < |lines| && 0 <= j < |lines[i]| ::
      Sel(i, j, 0, |lines[i][j]|) in MiddleAll(lines, lo, hi)
    decreases hi - lo
  {
    if lo < hi && lo < |lines| {
      var a := AllOf(lines, lo, 0, |lines[lo]|);
      var rest := MiddleAll(lines, lo + 1, hi);
      MiddleAllProperties(lines, lo + 1, hi);
      forall i, j | 0 <= i < |a| && 0 <= j < |rest|
        ensures Before(a[i], rest[j])
      {
        assert rest[j].rd >= lo + 1;
      }
      InReadingOrderConcat(a, rest);
      forall i, j | lo <= i < hi && i < |lines| && 0 <= j < |lines[i]|
        ensures Sel(i, j, 0, |lines[i][j]|) in a + rest
      {
        if i == lo {
          assert a[j] == Sel(i, j, 0, |lines[i][j]|);
        } else {
          assert Sel(i, j, 0, |lines[i][j]|) in rest;
        }
      }
    }
  }

  /** Two parts in reading order, the first on earlier segments than the second, make one. */
  lemma Chain(lines: seq<seq<string>>, a: seq<Sel>, b: seq<Sel>, lo1: int, hi1: int, lo2: int, hi2: int)
    requires InReadingOrder(a) && WithinSegments(lines, a, lo1, hi1)
    requires InReadingOrder(b) && WithinSegments(lines, b, lo2, hi2)
    requires hi1 < lo2 && lo1 <= lo2 && hi1 <= hi2
    ensures InReadingOrder(a + b) && WithinSegments(lines, a + b, lo1, hi2)
  {
    forall i, j | 0 <= i < |a| && 0 <= j < |b|
      ensures Before(a[i], b[j])
    {
    }
    InReadingOrderConcat(a, b);
  }

  /** The first segment's steps are in reading order, on existing pieces of that segment. */
  lemma StartSegmentProperties(lines: seq<seq<string>>, rd: nat, lt: ClickPoint)
    ensures InReadingOrder(StartSegment(lines, rd, lt)) && WithinSegments(lines, StartSegment(lines, rd, lt), rd, rd)
  {
    if rd < |lines| {
      InReadingOrderConcat(FromOrTo(lines, rd, lt.pieceIndex, lt.charIndex, true), AllOf(lines, rd, lt.pieceIndex + 1, |lines[rd]|));
    }
  }

  /** The last segment's steps are in reading order, on existing pieces of that segment. */
  lemma EndSegmentProperties(lines: seq<seq<string>>, rd: nat, br: ClickPoint)
    ensures InReadingOrder(EndSegment(lines, rd, br)) && WithinSegments(lines, EndSegment(lines, rd, br), rd, rd)
  {
    if rd < |lines| {
      InReadingOrderConcat(AllOf(lines, rd, 0, br.pieceIndex), FromOrTo(lines, rd, br.pieceIndex, br.charIndex + 1, false));
    }
  }

  /**
   * A drag across segments selects in reading order, only existing pieces
   * of segments in `rStart..=rEnd`, and every piece of every segment
   * strictly between the two selected whole.
   */
  lemma AcrossSegments(fp: ClickPoint, tp: ClickPoint, lines: seq<seq<string>>, rStart: nat, rEnd: nat)
    requires rStart < rEnd
    ensures InReadingOrder(SelectPlan(fp, tp, lines, rStart, rEnd))
    ensures WithinSegments(lines, SelectPlan(fp, tp, lines, rStart, rEnd), rStart, rEnd)
    ensures forall i, j | rStart < i < rEnd && i < |lines| && 0 <= j < |lines[i]| ::
      Sel(i, j, 0, |lines[i][j]|) in SelectPlan(fp, tp, lines, rStart, rEnd)
  {
    var order := ReadingOrder(fp, tp);
    var first := StartSegment(lines, rStart, order.0);
    var middle := MiddleAll(lines, rStart + 1, rEnd);
    var last := EndSegment(lines, rEnd, order.1);
    assert SelectPlan(fp, tp, lines, rStart, rEnd) == first + middle + last;
    StartSegmentProperties(lines, rStart, order.0);
    MiddleAllProperties(lines, rStart + 1, rEnd);
    EndSegmentProperties(lines, rEnd, order.1);
    Chain(lines, first, middle, rStart, rStart, rStart + 1, rEnd - 1);
    Chain(lines, first + middle, last, rStart, rEnd - 1, rEnd, rEnd);
    forall i, j | rStart < i < rEnd && i < |lines| && 0 <= j < |lines[i]|
      ensures Sel(i, j, 0, |lines[i][j]|) in first + middle + last
    {
      assert Sel(i, j, 0, |lines[i][j]|) in middle;
    }
  }

  /** The steps of a drag within one segment are in reading order and cover the pieces in between. */
  lemma OneSegmentProperties(lines: seq<seq<string>>, r: nat, lt: ClickPoint, br: ClickPoint)
    ensures InReadingOrder(OneSegment(lines, r, lt, br))
    ensures WithinSegments(lines, OneSegment(lines, r, lt, br), r, r)
    ensures forall j | lt.pieceIndex < j < br.pieceIndex && r < |lines| && j < |lines[r]| ::
      Sel(r, j, 0, |lines[r][j]|) in OneSegment(lines, r, lt, br)
  {
    var f, t := lt.pieceIndex, br.pieceIndex;
    if r < |lines| && t > f {
      var a := FromOrTo(lines, r, f, lt.charIndex, true);
      var b := AllOf(lines, r, f + 1, t);
      var c := FromOrTo(lines, r, t, br.charIndex + 1, false);
      assert OneSegment(lines, r, lt, br) == a + b + c;
      InReadingOrderConcat(a, b);
      InReadingOrderConcat(a + b, c);
      forall j | f < j < t && j < |lines[r]|
        ensures Sel(r, j, 0, |lines[r][j]|) in a + b + c
      {
        assert b[j - f - 1] == Sel(r, j, 0, |lines[r][j]|);
        assert (a + b + c)[|a| + j - f - 1] == b[j - f - 1];
      }
    }
  }

  /**
   * A drag within one segment selects in reading order, only existing
   * pieces of that segment, and every piece strictly between the two
   * points' pieces whole.
   */
  lemma WithinSegment(fp: ClickPoint, tp: ClickPoint, lines: seq<seq<string>>, r: nat)
    ensures InReadingOrder(SelectPlan(fp, tp, lines, r, r))
    ensures WithinSegments(lines, SelectPlan(fp, tp, lines, r, r), r, r)
    ensures forall j | ReadingOrder(fp, tp).0.pieceIndex < j < ReadingOrder(fp, tp).1.pieceIndex && r < |lines| && j < |lines[r]| ::
      Sel(r, j, 0, |lines[r][j]|) in SelectPlan(fp, tp, lines, r, r)
  {
    var order := ReadingOrder(fp, tp);
    assert SelectPlan(fp, tp, lines, r, r) == OneSegment(lines, r, order.0, order.1);
    OneSegmentProperties(lines, r, order.0, order.1);
  }

  /**
   * Within one piece the copied text runs from the character under one
   * point to the character under the other, both included, whichever way
   * the drag went.
   */
  lemma WithinOnePiece(fp: ClickPoint, tp: ClickPoint, lines: seq<seq<string>>, r: nat)
    requires r < |lines| && fp.pieceIndex == tp.pieceIndex < |lines[r]|
    requires Max(fp.charIndex, tp.charIndex) < |lines[r][fp.pieceIndex]|
    ensures CopiedText(lines, SelectPlan(fp, tp, lines, r, r))
      == lines[r][fp.pieceIndex][Min(fp.charIndex, tp.charIndex)..Max(fp.charIndex, tp.charIndex) + 1]
  {
    var (lt, br) := ReadingOrder(fp, tp);
    var line := lines[r][fp.pieceIndex];
    var (fci, tci) := if lt.charIndex >= br.charIndex + 1 then (br.charIndex, lt.charIndex + 1) else (lt.charIndex, br.charIndex + 1);
    var plan := SelectPlan(fp, tp, lines, r, r);
    assert plan == [Sel(r, fp.pieceIndex, fci, tci)];
    assert CopiedText(lines, plan) == SelectedText(line, Some((fci, tci))) + CopiedText(lines, plan[1..]);
  }
}
