/**
 * The review panel (`RichReviewer`): a snapshot of segments that can be
 * searched for a term and browsed match by match, the scan that picks the
 * segments to paint, and the panel height.
 *
 * A search records, highest index first, the segments whose text
 * contains the term, and on each of them the character ranges of the
 * matches, last match first. The focus `(segment, k)` names the `k`-th
 * recorded range of a matching segment; browsing backwards (up the panel)
 * raises `k` and then moves to the next lower-indexed match, browsing
 * forwards lowers `k` and then moves to the next higher-indexed match,
 * and both wrap around at the ends of the result list.
 */
module Reviewer {
  import opened Common
  import opened Segment
  import opened TextSearch
  import opened IdLookup

  /** Top and bottom padding of the panel (`PADDING`), in pixels. */
  const PaddingTop: int := 5
  const PaddingBottom: int := 5

  /** Each element is larger than every later one. */
  predicate StrictlyDescending(s: seq<nat>)
  {
    forall i, j | 0 <= i < j < |s| :: s[i] > s[j]
  }

  /** `Vec::reverse`. */
  function Reverse<T>(s: seq<T>): (r: seq<T>)
    ensures |r| == |s|
    ensures forall i | 0 <= i < |s| :: r[i] == s[|s| - 1 - i]
  {
    if s == [] then [] else Reverse(s[1..]) + [s[0]]
  }

  /** Reversing twice gives the sequence back. */
  lemma ReverseReverse<T>(s: seq<T>)
    ensures Reverse(Reverse(s)) == s
  {
  }

  /** Putting an element in front reverses to putting it at the back. */
  lemma ReversePrepend<T>(x: T, s: seq<T>)
    ensures Reverse([x] + s) == Reverse(s) + [x]
  {
    assert ([x] + s)[1..] == s;
  }

  /**
   * Where `t` first occurs in `s`: an independent reference for the
   * binary search over the result list.
   */
  function IndexOf(s: seq<nat>, t: nat): (r: Option<nat>)
    ensures r.Some? ==> r.value < |s| && s[r.value] == t && t !in s[..r.value]
    ensures r.None? <==> t !in s
  {
    if s == [] then None
    else if s[0] == t then Some(0)
    else
      match IndexOf(s[1..], t)
      case None => None
      case Some(i) =>
        assert s[..i + 1] == [s[0]] + s[1..][..i];
        Some(i + 1)
  }

  /** In a strictly descending list every element sits at the index `IndexOf` gives. */
  lemma IndexOfDescending(s: seq<nat>, j: nat)
    requires StrictlyDescending(s) && j < |s|
    ensures IndexOf(s, s[j]) == Some(j)
  {
    assert s[j] in s;
  }

  // ---------------------------------------------------------------------
  // The search index.

  /** The indices below `n` of the segments whose text contains `p`, highest first. */
  function MatchingBelow(b: seq<RichData>, p: string, n: nat): seq<nat>
    requires n <= |b|
  {
    if n == 0 then []
    else (if Contains(b[n - 1].text, p) then [n - 1] else []) + MatchingBelow(b, p, n - 1)
  }

  /** The indices of all segments whose text contains `p`, highest first. */
  function MatchingIndices(b: seq<RichData>, p: string): seq<nat>
  {
    MatchingBelow(b, p, |b|)
  }

  /**
   * The matching indices below `n` are strictly descending, and an index
   * is listed exactly when it is below `n` and its segment contains `p`.
   */
  lemma {:induction false} MatchingBelowProperties(b: seq<RichData>, p: string, n: nat)
    requires n <= |b|
    ensures StrictlyDescending(MatchingBelow(b, p, n))
    ensures forall i :: i in MatchingBelow(b, p, n) <==> 0 <= i < n && Contains(b[i].text, p)
  {
    if n > 0 {
      MatchingBelowProperties(b, p, n - 1);
      var rest := MatchingBelow(b, p, n - 1);
      forall k | 0 <= k < |rest|
        ensures rest[k] < n - 1
      {
        assert rest[k] in rest;
      }
    }
  }

  /** Only the texts decide which indices match. */
  lemma {:induction false} MatchingBelowTexts(b: seq<RichData>, c: seq<RichData>, p: string, n: nat)
    requires n <= |b| == |c|
    requires forall i | 0 <= i < |b| :: b[i].text == c[i].text
    ensures MatchingBelow(b, p, n) == MatchingBelow(c, p, n)
  {
    if n > 0 {
      MatchingBelowTexts(b, c, p, n - 1);
    }
  }

  /** What a search records on a segment: the match ranges when its text contains the term. */
  function Recorded(t: string, p: string): Option<seq<(nat, nat)>>
  {
    if Contains(t, p) then Some(MatchPositions(t, p)) else None
  }

  /** A segment with its search state dropped. */
  function Cleared(e: RichData): RichData
  {
    e.(searchResultPositions := None, searchHighlightPos := None)
  }

  /** The buffer after a fresh search for `p`: every segment's search state dropped and its matches recorded. */
  function Searched(b: seq<RichData>, p: string): (r: seq<RichData>)
    ensures |r| == |b|
    ensures forall i | 0 <= i < |b| :: r[i] == Cleared(b[i]).(searchResultPositions := Recorded(b[i].text, p))
  {
    seq(|b|, i requires 0 <= i < |b| => Cleared(b[i]).(searchResultPositions := Recorded(b[i].text, p)))
  }

  /** Number of match ranges recorded on segment `i` (0 when there are none). */
  function MatchCount(b: seq<RichData>, i: nat): nat
  {
    if i < |b| && b[i].searchResultPositions.Some? then |b[i].searchResultPositions.value| else 0
  }

  /** No segment carries search state. */
  predicate NoSearchState(b: seq<RichData>)
  {
    forall i | 0 <= i < |b| :: b[i].searchResultPositions.None? && b[i].searchHighlightPos.None?
  }

  /**
   * The result list is a strictly descending list of segment indices, and
   * exactly the listed segments carry match ranges, at least one each.
   */
  predicate ResultsValid(b: seq<RichData>, results: seq<nat>)
  {
    && StrictlyDescending(results)
    && (forall k | 0 <= k < |results| :: results[k] < |b|)
    && (forall i | 0 <= i < |b| :: b[i].searchResultPositions.Some? <==> i in results)
    && (forall i | 0 <= i < |b| && b[i].searchResultPositions.Some? ::
          |b[i].searchResultPositions.value| > 0)
  }

  /** The focus, when set, names a recorded match range of a listed segment. */
  predicate FocusValid(b: seq<RichData>, results: seq<nat>, focus: Option<(nat, nat)>)
  {
    focus.Some? ==> focus.value.0 in results && focus.value.1 < MatchCount(b, focus.value.0)
  }

  /** Only the segment in focus may carry a highlight, and it names one of its match ranges. */
  predicate HighlightValid(b: seq<RichData>, focus: Option<(nat, nat)>)
  {
    forall i | 0 <= i < |b| && b[i].searchHighlightPos.Some? ::
      && focus.Some? && focus.value.0 == i
      && b[i].searchHighlightPos.value < MatchCount(b, i)
  }

  /** Two buffers that differ at most in the highlights. */
  predicate SameButHighlight(a: seq<RichData>, b: seq<RichData>)
  {
    |a| == |b| && forall i | 0 <= i < |a| :: b[i] == a[i].(searchHighlightPos := b[i].searchHighlightPos)
  }

  /** Changing anything but the search state keeps the result list and focus valid. */
  lemma SearchStateKept(a: seq<RichData>, b: seq<RichData>, results: seq<nat>, focus: Option<(nat, nat)>)
    requires |a| == |b|
    requires forall i | 0 <= i < |a| ::
      b[i].searchResultPositions == a[i].searchResultPositions && b[i].searchHighlightPos == a[i].searchHighlightPos
    requires ResultsValid(a, results) && FocusValid(a, results, focus) && HighlightValid(a, focus)
    ensures ResultsValid(b, results) && FocusValid(b, results, focus) && HighlightValid(b, focus)
  {
    assert forall i :: MatchCount(a, i) == MatchCount(b, i);
  }

  /**
   * Recording the matches of `p` on a buffer without search state gives a
   * valid result list, the matching indices highest first, with nothing
   * in focus.
   */
  lemma SearchRecordsValid(a: seq<RichData>, b: seq<RichData>, p: string)
    requires NoSearchState(a) && |a| == |b|
    requires forall i | 0 <= i < |a| :: b[i] == a[i].(searchResultPositions := Recorded(a[i].text, p))
    ensures MatchingIndices(a, p) == MatchingIndices(b, p)
    ensures ResultsValid(b, MatchingIndices(b, p)) && HighlightValid(b, None)
  {
    MatchingBelowTexts(a, b, p, |a|);
    MatchingBelowProperties(b, p, |b|);
    var r := MatchingIndices(b, p);
    forall k | 0 <= k < |r|
      ensures r[k] < |b|
    {
      assert r[k] in r;
    }
    forall i | 0 <= i < |b| && b[i].searchResultPositions.Some?
      ensures |b[i].searchResultPositions.value| > 0
    {
      MatchPositionsProperties(b[i].text, p);
    }
  }

  // ---------------------------------------------------------------------
  // Browsing the matches.

  /**
   * The focus after `highlight_previous`: without a focus, the first
   * range of the first listed segment; otherwise the next range of the
   * same segment, or the first range of the next listed segment, wrapping
   * to the first listed segment after the last.
   */
  function PrevFocus(b: seq<RichData>, results: seq<nat>, focus: Option<(nat, nat)>): (f: Option<(nat, nat)>)
    requires ResultsValid(b, results) && FocusValid(b, results, focus)
    ensures results == [] ==> f.None?
    ensures results != [] ==> f.Some? && FocusValid(b, results, f)
  {
    match focus
    case None => if results == [] then None else Some((results[0], 0))
    case Some((rd, k)) =>
      if k + 1 < MatchCount(b, rd) then Some((rd, k + 1))
      else
        var next := match IndexOf(results, rd) case Some(i) => i + 1 case None => 0;
        Some((if next < |results| then results[next] else results[0], 0))
  }

  /**
   * The focus after `highlight_next`: without a focus, the last range of
   * the last listed segment; otherwise the previous range of the same
   * segment, or the last range of the previous listed segment, wrapping to
   * the last listed segment before the first.
   */
  function NextFocus(b: seq<RichData>, results: seq<nat>, focus: Option<(nat, nat)>): (f: Option<(nat, nat)>)
    requires ResultsValid(b, results) && FocusValid(b, results, focus)
    ensures results == [] ==> f.None?
    ensures results != [] ==> f.Some? && FocusValid(b, results, f)
  {
    match focus
    case None =>
      if results == [] then None
      else
        var last := results[|results| - 1];
        assert last in results;
        Some((last, MatchCount(b, last) - 1))
    case Some((rd, k)) =>
      if k >= 1 then Some((rd, k - 1))
      else
        var next := match IndexOf(results, rd)
          case Some(i) => if i >= 1 then i - 1 else |results| - 1
          case None => |results| - 1;
        var nextRd := results[next];
        assert nextRd in results;
        Some((nextRd, MatchCount(b, nextRd) - 1))
  }

  /** Once a match is in focus, browsing forwards then backwards returns to it. */
  lemma NextThenPrevious(b: seq<RichData>, results: seq<nat>, focus: Option<(nat, nat)>)
    requires ResultsValid(b, results) && FocusValid(b, results, focus) && focus.Some?
    ensures PrevFocus(b, results, NextFocus(b, results, focus)) == focus
  {
    var (rd, k) := focus.value;
    if k == 0 {
      var i := IndexOf(results, rd).value;
      var next := if i >= 1 then i - 1 else |results| - 1;
      IndexOfDescending(results, next);
    }
  }

  /** Once a match is in focus, browsing backwards then forwards returns to it. */
  lemma PreviousThenNext(b: seq<RichData>, results: seq<nat>, focus: Option<(nat, nat)>)
    requires ResultsValid(b, results) && FocusValid(b, results, focus) && focus.Some?
    ensures NextFocus(b, results, PrevFocus(b, results, focus)) == focus
  {
    var (rd, k) := focus.value;
    if k + 1 >= MatchCount(b, rd) {
      var i := IndexOf(results, rd).value;
      var next := if i + 1 < |results| then i + 1 else 0;
      IndexOfDescending(results, next);
    }
  }

  /**
   * Browsing wraps around: backwards from the last range of the last
   * listed segment comes the first range of the first one, and forwards
   * from the first range of the first listed segment comes the last range
   * of the last one.
   */
  lemma NavigationWraps(b: seq<RichData>, results: seq<nat>)
    requires ResultsValid(b, results) && results != []
    ensures var last := results[|results| - 1];
      && FocusValid(b, results, Some((last, MatchCount(b, last) - 1)))
      && PrevFocus(b, results, Some((last, MatchCount(b, last) - 1))) == Some((results[0], 0))
    ensures FocusValid(b, results, Some((results[0], 0)))
      && NextFocus(b, results, Some((results[0], 0)))
         == Some((results[|results| - 1], MatchCount(b, results[|results| - 1]) - 1))
  {
    var last := results[|results| - 1];
    assert last in results && results[0] in results;
    IndexOfDescending(results, |results| - 1);
    IndexOfDescending(results, 0);
  }

  // ---------------------------------------------------------------------
  // The panel.

  /**
   * The height the segments need: from the top of the first to the bottom
   * of the last, plus the padding; an empty buffer spans nothing.
   */
  function ContentHeight(b: seq<RichData>): int
  {
    var top := if b == [] then 0 else b[0].vBounds.0;
    var bottom := if b == [] then 0 else b[|b| - 1].vBounds.1;
    bottom - top + PaddingBottom + PaddingTop
  }

  /** `calc_panel_height`: the panel is as tall as its content, and at least as tall as the scroller. */
  function CalcPanelHeight(b: seq<RichData>, scrollerHeight: int): (h: int)
    ensures h >= scrollerHeight && h >= ContentHeight(b)
    ensures h == scrollerHeight || h == ContentHeight(b)
    ensures b == [] ==> h == Max(PaddingTop + PaddingBottom, scrollerHeight)
  {
    var content := ContentHeight(b);
    if content > scrollerHeight then content else scrollerHeight
  }

  /**
   * The scan in `draw_offline` that picks the segments to paint, walking
   * from the last segment back: `to` is just past the last segment that
   * meets the band from `top` to `bottom`, and `from` is just past the
   * first segment in front of it that does not. With nothing visible the
   * whole buffer is taken.
   */
  method VisibleRange(data: seq<RichData>, top: int, bottom: int) returns (from: nat, to: nat)
    ensures from <= to <= |data|
    ensures (exists i | 0 <= i < |data| :: IsVisible(data[i], top, bottom)) ==>
      && from < to
      && (forall i | from <= i < to :: IsVisible(data[i], top, bottom))
      && (forall i | to <= i < |data| :: !IsVisible(data[i], top, bottom))
      && (from > 0 ==> !IsVisible(data[from - 1], top, bottom))
    ensures (forall i | 0 <= i < |data| :: !IsVisible(data[i], top, bottom)) ==>
      from == 0 && to == |data|
  {
    from, to := 0, |data|;
    var setTo, beginCheck := false, false;
    var k := 0;
    while k < |data|
      invariant 0 <= k <= |data|
      invariant from == 0 && setTo == beginCheck
      invariant !setTo ==> to == |data| && forall i | |data| - k <= i < |data| :: !IsVisible(data[i], top, bottom)
      invariant setTo ==> |data| - k < to <= |data|
      invariant setTo ==> forall i | to <= i < |data| :: !IsVisible(data[i], top, bottom)
      invariant setTo ==> forall i | |data| - k <= i < to :: IsVisible(data[i], top, bottom)
    {
      var rd := data[|data| - 1 - k];
      if !setTo && IsVisible(rd, top, bottom) {
        to := |data| - k;
        setTo, beginCheck := true, true;
      }
      if beginCheck && !IsVisible(rd, top, bottom) {
        from := |data| - k;
        break;
      }
      k := k + 1;
    }
    if setTo {
      assert IsVisible(data[to - 1], top, bottom);
    }
  }

  /** The first `n` segments of `r` carry the matches of `p`; the rest are as in `b`. */
  predicate RecordedBelow(b: seq<RichData>, p: string, r: seq<RichData>, n: nat)
  {
    |r| == |b| && forall i | 0 <= i < |r| ::
      r[i] == if i < n then b[i].(searchResultPositions := Recorded(b[i].text, p)) else b[i]
  }

  /** One pass of the search loop over segment `n` extends the recorded part by that segment. */
  lemma RecordStep(b: seq<RichData>, p: string, r: seq<RichData>, n: nat)
    requires NoSearchState(b) && n < |b| && RecordedBelow(b, p, r, n)
    ensures Contains(b[n].text, p) ==>
      RecordedBelow(b, p, r[n := b[n].(searchResultPositions := Some(MatchPositions(b[n].text, p)))], n + 1)
    ensures !Contains(b[n].text, p) ==> RecordedBelow(b, p, r, n + 1)
  {
    assert b[n].(searchResultPositions := None) == b[n];
  }

  /** One pass of the search loop over segment `n` extends the (lowest-first) result list by `n` if it matches. */
  lemma ResultsStep(b: seq<RichData>, p: string, results: seq<nat>, n: nat)
    requires n < |b| && results == Reverse(MatchingBelow(b, p, n))
    ensures Contains(b[n].text, p) ==> results + [n] == Reverse(MatchingBelow(b, p, n + 1))
    ensures !Contains(b[n].text, p) ==> results == Reverse(MatchingBelow(b, p, n + 1))
  {
    ReversePrepend(n, MatchingBelow(b, p, n));
  }

  /**
   * One pass of `_search_target`'s loop, over segment `idx`: when its text
   * contains `s` the search is marked successful, the index is appended to
   * the (lowest-first) list and the match ranges are recorded on it.
   */
  method RecordSegment(b: seq<RichData>, s: string, r: seq<RichData>, results: seq<nat>, found: bool, idx: nat)
    returns (r': seq<RichData>, results': seq<nat>, found': bool)
    requires NoSearchState(b) && idx < |b|
    requires RecordedBelow(b, s, r, idx) && results == Reverse(MatchingBelow(b, s, idx)) && (found <==> results != [])
    ensures RecordedBelow(b, s, r', idx + 1) && results' == Reverse(MatchingBelow(b, s, idx + 1))
    ensures found' <==> results' != []
  {
    r', results', found' := r, results, found;
    RecordStep(b, s, r, idx);
    ResultsStep(b, s, results, idx);
    if Contains(r[idx].text, s) {
      found' := true;
      results' := results' + [idx];
      var positions := MatchPositions(r[idx].text, s);
      MatchPositionsProperties(r[idx].text, s);
      if positions != [] {
        r' := r'[idx := r'[idx].(searchResultPositions := Some(positions))];
      }
    }
  }

  /**
   * The loop of `_search_target` over the segments of a buffer without
   * search state: records the match ranges of `s` on every segment that
   * contains it and lists those segments, reversed at the end into
   * highest-index-first order.
   */
  method RecordMatches(b: seq<RichData>, s: string) returns (r: seq<RichData>, results: seq<nat>, found: bool)
    requires NoSearchState(b)
    ensures |r| == |b|
    ensures forall i | 0 <= i < |b| :: r[i] == b[i].(searchResultPositions := Recorded(b[i].text, s))
    ensures results == MatchingIndices(b, s)
    ensures found <==> results != []
  {
    found := false;
    r, results := b, [];
    var idx := 0;
    while idx < |r|
      invariant 0 <= idx <= |r| == |b|
      invariant results == Reverse(MatchingBelow(b, s, idx))
      invariant found <==> results != []
      invariant RecordedBelow(b, s, r, idx)
    {
      r, results, found := RecordSegment(b, s, r, results, found, idx);
      idx := idx + 1;
    }
    if found {
      results := Reverse(results);
    }
    assert results == MatchingIndices(b, s) by {
      ReverseReverse(MatchingBelow(b, s, |b|));
    }
    assert forall i | 0 <= i < |b| :: r[i] == b[i].(searchResultPositions := Recorded(b[i].text, s)) by {
      assert RecordedBelow(b, s, r, |b|);
    }
  }

  // ---------------------------------------------------------------------
  // The panel state.

  class RichReviewer {
    var buffer: seq<RichData>
    var searchString: Option<string>
    var searchResults: seq<nat>
    var focus: Option<(nat, nat)>

    /** The search state is consistent, and there are no results without a search term. */
    ghost predicate Valid()
      reads this
    {
      && ResultsValid(buffer, searchResults)
      && FocusValid(buffer, searchResults, focus)
      && HighlightValid(buffer, focus)
      && (searchString.None? ==> searchResults == [])
    }

    /** A panel over a snapshot of segments, with no search yet (`new` then `set_data`). */
    constructor (data: seq<RichData>)
      requires NoSearchState(data)
      ensures Valid()
      ensures buffer == data && searchString.None? && searchResults == [] && focus.None?
    {
      buffer := data;
      searchString := None;
      searchResults := [];
      focus := None;
    }

    /**
     * `binary_search_with_desc_order`: the standard binary search over the
     * result list with the comparison turned around. An `Ok` index holds
     * the target; on a strictly descending list the search succeeds
     * exactly when the target is listed, at the index where it occurs.
     */
    method BinarySearchWithDescOrder(target: nat) returns (r: Result<nat, nat>)
      ensures r.Ok? ==> r.value < |searchResults| && searchResults[r.value] == target
      ensures StrictlyDescending(searchResults) ==> (r.Ok? <==> target in searchResults)
      ensures StrictlyDescending(searchResults) && r.Ok? ==> IndexOf(searchResults, target) == Some(r.value)
    {
      var f := (a: nat) => if a == target then Equal else if a > target then Less else Greater;
      if StrictlyDescending(searchResults) {
        forall i, j | 0 <= i < j < |searchResults|
          ensures Rank(f(searchResults[i])) <= Rank(f(searchResults[j]))
        {
          assert searchResults[i] > searchResults[j];
        }
      }
      r := BinarySearchBy(searchResults, f);
      if StrictlyDescending(searchResults) && r.Ok? {
        IndexOfDescending(searchResults, r.value);
      }
    }

    /**
     * `_clear_search_results`: every listed segment loses its match ranges
     * and highlight, and the result list and focus are emptied; the term
     * is kept.
     */
    method ClearSearchState()
      requires Valid()
      modifies this
      ensures Valid()
      ensures searchResults == [] && focus.None? && searchString == old(searchString)
      ensures |buffer| == |old(buffer)|
      ensures forall i | 0 <= i < |buffer| :: buffer[i] == Cleared(old(buffer[i]))
      ensures NoSearchState(buffer)
    {
      var b, results := buffer, searchResults;
      var k := 0;
      while k < |results|
        invariant 0 <= k <= |results|
        invariant |b| == |buffer|
        invariant forall i | 0 <= i < |b| ::
          b[i] == if i in results[..k] then Cleared(buffer[i]) else buffer[i]
      {
        var idx := results[k];
        if idx < |b| {
          b := b[idx := Cleared(b[idx])];
        }
        assert results[..k + 1] == results[..k] + [idx];
        k := k + 1;
      }
      assert results[..k] == results;
      forall i | 0 <= i < |b|
        ensures b[i] == Cleared(buffer[i])
      {
        if i !in results {
          assert buffer[i].searchResultPositions.None?;
          assert buffer[i].searchHighlightPos.None?;
        }
      }
      buffer := b;
      searchResults := [];
      focus := None;
    }

    /** `clear_search_results`: the search state is cleared and the term dropped. */
    method ClearSearchResults()
      requires Valid()
      modifies this
      ensures Valid()
      ensures searchResults == [] && focus.None? && searchString.None?
      ensures |buffer| == |old(buffer)|
      ensures forall i | 0 <= i < |buffer| :: buffer[i] == Cleared(old(buffer[i]))
      ensures NoSearchState(buffer)
    {
      ClearSearchState();
      searchString := None;
    }

    /**
     * `_search_target`: after clearing the previous search, lists the
     * segments whose text contains `s`, highest index first, and records on
     * each the character ranges of the matches; reports whether any
     * segment matched.
     */
    method SearchTarget(s: string) returns (found: bool)
      requires Valid()
      modifies this
      ensures Valid()
      ensures searchString == Some(s) && focus.None?
      ensures searchResults == MatchingIndices(buffer, s)
      ensures found <==> searchResults != []
      ensures buffer == Searched(old(buffer), s)
    {
      ClearSearchState();
      searchString := Some(s);
      var b, results;
      b, results, found := RecordMatches(buffer, s);
      SearchRecordsValid(buffer, b, s);
      buffer, searchResults := b, results;
    }

    /**
     * Moves the focus to range `to.1` of segment `to.0` and highlights range
     * `h` there; the segment that had the focus loses its highlight.
     */
    method MoveFocus(to: (nat, nat), h: nat)
      requires Valid()
      requires FocusValid(buffer, searchResults, Some(to)) && h < MatchCount(buffer, to.0)
      modifies this
      ensures Valid()
      ensures focus == Some(to)
      ensures searchResults == old(searchResults) && searchString == old(searchString)
      ensures SameButHighlight(old(buffer), buffer)
      ensures buffer[to.0].searchHighlightPos == Some(h)
    {
      var b := buffer;
      if focus.Some? {
        var rd := focus.value.0;
        b := b[rd := b[rd].(searchHighlightPos := None)];
      }
      b := b[to.0 := b[to.0].(searchHighlightPos := Some(h))];
      assert forall i :: MatchCount(b, i) == MatchCount(buffer, i);
      buffer := b;
      focus := Some(to);
    }

    /**
     * `highlight_previous`: the focus moves as `PrevFocus` says; the
     * segment left behind loses its highlight and the segment in focus is
     * highlighted at the focused range. Nothing else changes.
     */
    method HighlightPrevious()
      requires Valid()
      modifies this
      ensures Valid()
      ensures focus == PrevFocus(old(buffer), old(searchResults), old(focus))
      ensures searchResults == old(searchResults) && searchString == old(searchString)
      ensures SameButHighlight(old(buffer), buffer)
      ensures focus.Some? ==> buffer[focus.value.0].searchHighlightPos == Some(focus.value.1)
    {
      if focus.Some? {
        var (rd, k) := focus.value;
        // A valid focus names a listed segment, which has match ranges.
        assert rd in searchResults;
        var count := |buffer[rd].searchResultPositions.value|;
        if k + 1 < count {
          MoveFocus((rd, k + 1), k + 1);
        } else {
          var found := BinarySearchWithDescOrder(rd);
          var nextIdx := if found.Ok? then found.value + 1 else 0;
          var nextPos := if nextIdx < |searchResults| then searchResults[nextIdx] else searchResults[0];
          assert nextPos in searchResults;
          MoveFocus((nextPos, 0), 0);
        }
      } else if searchResults != [] {
        var rdIdx := searchResults[0];
        assert rdIdx in searchResults;
        MoveFocus((rdIdx, 0), 0);
      }
    }

    /**
     * `highlight_next`: the focus moves as `NextFocus` says; the segment
     * left behind loses its highlight. Within a segment the highlight
     * follows the focus; on moving to another segment the focus names its
     * last range while the highlight is set to range 0, as the program
     * does.
     */
    method HighlightNext()
      requires Valid()
      modifies this
      ensures Valid()
      ensures focus == NextFocus(old(buffer), old(searchResults), old(focus))
      ensures searchResults == old(searchResults) && searchString == old(searchString)
      ensures SameButHighlight(old(buffer), buffer)
      ensures focus.Some? ==>
        buffer[focus.value.0].searchHighlightPos == Some(if old(focus).Some? && old(focus).value.1 == 0 then 0 else focus.value.1)
    {
      if focus.Some? {
        var (rd, k) := focus.value;
        if k >= 1 {
          MoveFocus((rd, k - 1), k - 1);
        } else {
          var found := BinarySearchWithDescOrder(rd);
          // A valid focus names a listed segment, so the list is not empty.
          assert rd in searchResults;
          var nextIdx := if found.Ok? && found.value >= 1 then found.value - 1 else |searchResults| - 1;
          var nextPos := searchResults[nextIdx];
          assert nextPos in searchResults;
          var len := |buffer[nextPos].searchResultPositions.value|;
          MoveFocus((nextPos, len - 1), 0);
        }
      } else if searchResults != [] {
        var rdIdx := searchResults[|searchResults| - 1];
        assert rdIdx in searchResults;
        var len := |buffer[rdIdx].searchResultPositions.value|;
        MoveFocus((rdIdx, len - 1), len - 1);
      }
    }

    /**
     * `search_str`: a new term is searched afresh, as `SearchTarget` does,
     * and the same term reuses the results; when there are results the focus
     * then moves forwards (`highlight_next`) or backwards
     * (`highlight_previous`) from where the search step left it: from no
     * focus after a fresh search, from the previous focus otherwise. Reports
     * whether there are results, and then a match is in focus.
     */
    method SearchStr(s: string, forward: bool) returns (found: bool)
      requires Valid()
      modifies this
      ensures Valid()
      ensures searchString == Some(s)
      ensures found <==> searchResults != []
      ensures old(searchString) != Some(s) ==> searchResults == MatchingIndices(buffer, s)
      ensures old(searchString) == Some(s) ==> searchResults == old(searchResults)
      ensures found ==> focus.Some?
      ensures !found ==> focus.None?
      ensures var same := old(searchString) == Some(s);
        var b1 := if same then old(buffer) else Searched(old(buffer), s);
        var f1 := if same then old(focus) else None;
        found ==>
          && ResultsValid(b1, searchResults) && FocusValid(b1, searchResults, f1)
          && SameButHighlight(b1, buffer)
          && focus == (if forward then NextFocus(b1, searchResults, f1) else PrevFocus(b1, searchResults, f1))
          && buffer[focus.value.0].searchHighlightPos
             == Some(if forward && f1.Some? && f1.value.1 == 0 then 0 else focus.value.1)
    {
      if searchString.Some? && searchString.value == s {
        found := searchResults != [];
      } else {
        found := SearchTarget(s);
      }
      if found {
        ghost var b1 := buffer;
        if forward {
          HighlightNext();
        } else {
          HighlightPrevious();
        }
        MatchingBelowTexts(b1, buffer, s, |buffer|);
      }
    }

    /**
     * `update_data`: the segment with the options' id, found by binary
     * search, takes the given options; the search state is untouched. On an
     * id-ordered buffer exactly the segment with that id changes, and an
     * unknown id changes nothing.
     */
    method UpdateData(o: RichDataOptions)
      requires Valid()
      requires forall i | 0 <= i < |buffer| && buffer[i].id == o.id :: UpdateDefined(o, buffer[i])
      modifies this
      ensures Valid()
      ensures searchString == old(searchString) && searchResults == old(searchResults) && focus == old(focus)
      ensures |buffer| == |old(buffer)|
      ensures forall i | 0 <= i < |buffer| ::
        buffer[i] == old(buffer[i])
        || (old(buffer[i]).id == o.id && buffer[i] == UpdateDataProperties(o, old(buffer[i])))
      ensures IdsAscending(old(buffer)) ==> forall i | 0 <= i < |buffer| ::
        buffer[i] == if old(buffer[i]).id == o.id then UpdateDataProperties(o, old(buffer[i])) else old(buffer[i])
    {
      var r := FindById(buffer, o.id);
      if r.Ok? {
        var idx := r.value;
        UpdateChangesOnlyGivenFields(o, buffer[idx]);
        var b := buffer[idx := UpdateDataProperties(o, buffer[idx])];
        SearchStateKept(buffer, b, searchResults, focus);
        buffer := b;
      }
    }

    /**
     * `disable_data`: the segment with the given id, found by binary
     * search, is disabled; the search state is untouched. On an id-ordered
     * buffer exactly the segment with that id changes, and an unknown id
     * changes nothing.
     */
    method DisableData(id: int)
      requires Valid()
      requires forall i | 0 <= i < |buffer| && buffer[i].id == id :: DisableDefined(buffer[i])
      modifies this
      ensures Valid()
      ensures searchString == old(searchString) && searchResults == old(searchResults) && focus == old(focus)
      ensures |buffer| == |old(buffer)|
      ensures forall i | 0 <= i < |buffer| ::
        buffer[i] == old(buffer[i]) || (old(buffer[i]).id == id && buffer[i] == Segment.DisableData(old(buffer[i])))
      ensures IdsAscending(old(buffer)) ==> forall i | 0 <= i < |buffer| ::
        buffer[i] == if old(buffer[i]).id == id then Segment.DisableData(old(buffer[i])) else old(buffer[i])
    {
      var r := FindById(buffer, id);
      if r.Ok? {
        var idx := r.value;
        var b := buffer[idx := Segment.DisableData(buffer[idx])];
        SearchStateKept(buffer, b, searchResults, focus);
        buffer := b;
      }
    }
  }
}
