# fltkrs-richdisplay: a Dafny model of the viewer's core logic

fltkrs-richdisplay is an FLTK rich-text viewer. It has a live panel, a
scroll-back review panel and a cursor-addressed "rewrite board" for
terminal-style output. Under the widget code sit integer- and
string-only rules. This project models those rules and proves their
properties.

- **Segments** (`segment.dfy`, module `Segment`). The `RichData` record
  and the `UserData` action rules. A partial update by a
  `RichDataOptions` record, and the disable and expire rules.
- **Geometry** (`geometry.dfy`, `Geometry`). Rectangle normalisation and
  ordering, the strict and the inclusive overlap tests, click points,
  vertical centring, `ThroughLine` and `BlinkState`.
- **Colours** (`colors.dfy`, `Colors`). The contrast colour, the
  lighter-or-darker colour and the grayscale image transform.
- **Edit commands** (`doc_edit.dfy`, `DocEdit`). `DocEditType`'s text
  form. Cursor and erase commands become ECMA-48 control sequences:
  CUU section 8.3.22, CUD 8.3.19, CUF 8.3.20, CUB 8.3.18, CNL 8.3.12,
  CPL 8.3.13, CHA 8.3.9, CUP 8.3.21, ED 8.3.39 and EL 8.3.41. An
  independent reader parses them back.
- **Text selection** (`selection.dfy`, `Selection`). A line piece's
  selected range and the copy of it. The choice of pieces a drag makes.
- **The rewrite board** (`cursor.dfy`, `board_text.dfy`,
  `rewrite_board.dfy`).
  - The clamped row/column cursor and its Cursor Position Report
    (ECMA-48 section 8.3.14).
  - The row-keyed map of entries.
  - Writing text at the cursor.
  - Erase in Line (ECMA-48 section 8.3.41) and Erase in Display
    (section 8.3.39), exactly as the program's scans do them. The
    board keeps their two off-by-ones (see Findings). Corrected
    definitions sit beside them, with lemmas saying where the two
    agree.
- **The review panel** (`text_search.dfy`, `id_lookup.dfy`,
  `rich_reviewer.dfy`).
  - Substring search as `rmatch_indices` does it, in characters.
  - The descending result list and the cyclic browsing of matches.
  - The scan that picks the segments to paint, and the panel height.
  - Lookup and update of a segment by id.
- **The live buffer** (`live_buffer.dfy`, `LiveBuffer`). A bounded
  queue of segments, updated or disabled in place by id.

Objects whose fields the program updates are Dafny classes:
`CursorPos`, `ReWriteBoard`, `RichReviewer`, `RichText`, `LinePiece`,
`ThroughLine` and `BlinkState`. Their methods are proved against
specification functions. In-place rewrites of one segment through an
exclusive `&mut` borrow are functions from the old record to the new
one, since no other reference can see the record mid-update. Integers
are unbounded. Strings are sequences of Unicode scalar values, so a
character count and an index agree.

## Model

| member | source | states |
|---|---|---|
| Common.BinarySearchBy | src/rich_reviewer.rs:801-811 | `binary_search_by`: an `Ok` index holds an element the comparator calls equal. On a partitioned sequence it is `Ok` iff such an element exists; otherwise `Err` is the insertion point. |
| Common.DecimalRoundTrip | src/lib.rs:271-294 | The decimal text of a number reads back as that number. |
| Geometry.NewRect | src/lib.rs:619-629 | `Rectangle::new`: width and height ≥ 0, top-left at (min(x, x+w), min(y, y+h)), size (abs w, abs h). |
| Geometry.NewRectIdempotent | src/lib.rs:619-629 | Normalising twice changes nothing, and a rectangle with non-negative size is kept as given. |
| Geometry.NewRectFromEitherCorner | src/lib.rs:619-629 | Spanning from either of two opposite corners gives the same rectangle. |
| Geometry.Intersects | src/lib.rs:726-731 | `Rectangle::intersects`, the strict test: rectangles that intersect also overlap, in both directions. |
| Geometry.IsOverlap | src/lib.rs:2808-2819 | `is_overlap`, the inclusive test: a selection whose top-left corner lies inside the target, edges included, overlaps it. |
| Geometry.IsBelow | src/lib.rs:643-645 | `is_below`: a rectangle below another neither overlaps nor intersects it. |
| Geometry.OverlapProperties | src/lib.rs:2808-2819 | `is_overlap` and `intersects` are both symmetric, and `intersects` implies `is_overlap`. |
| Geometry.TouchingIsOverlapNotIntersection | src/lib.rs:726-731 | Rectangles that only share an edge overlap but do not intersect. |
| Geometry.BelowIsDisjoint | src/lib.rs:643-645 | A rectangle below another overlaps it in neither direction. |
| Geometry.Compare | src/lib.rs:585-599 | `Ord for Rectangle`: equal iff x and y agree; less iff y is smaller, or y ties and x is smaller. |
| Geometry.CompareIsOrder | src/lib.rs:585-599 | The ordering is antisymmetric in its answers and transitive. |
| Geometry.NewClickPoint | src/lib.rs:747-749 | `ClickPoint::new` keeps the coordinates, with piece and character index 0. |
| Geometry.AsRect | src/lib.rs:752-754 | The empty rectangle at the point. |
| Geometry.ToRect | src/lib.rs:768-770 | The rectangle spans from the minimum to the maximum of the two points' coordinates. |
| Geometry.ToRectSymmetric | src/lib.rs:768-770 | The spanned rectangle does not depend on the order of the points. |
| Geometry.CornerRect | src/lib.rs:657-659 | Empty rectangles at the top-left and bottom-right corners. |
| Geometry.CalcVCenterOffset | src/lib.rs:1651-1655 | For a glyph no taller than its line, the bottom offset lies exactly a glyph height below the top one. |
| Geometry.VCenterOffsetFits | src/lib.rs:1651-1655 | For 0 ≤ font ≤ line height, `up ≥ 0`, `down ≤ line height`, `down - up == font height`, and the glyph is centred to within one pixel. |
| Geometry.VCenterOffsetTruncates | src/lib.rs:1651-1655 | With a glyph taller than its line the division truncates toward zero: (0, 3) gives (-1, 1). |
| Geometry.ThroughLine.constructor | src/lib.rs:793-795 | `ThroughLine::new` records the height and the image flag. |
| Geometry.ThroughLine.SetMaxH | src/lib.rs:810-815 | The height becomes the larger of the old one and the offered one; the image flag stays. |
| Geometry.BlinkState.constructor | src/lib.rs:510-519 | Starts off, with the normal intensity next. |
| Geometry.BlinkState.Off | src/lib.rs:521-524 | Blinking off; the next intensity is kept. |
| Geometry.BlinkState.On | src/lib.rs:526-528 | Blinking on; the next intensity is kept. |
| Geometry.BlinkState.ToggleWhenOn | src/lib.rs:530-541 | Reports whether blinking is on; only then does it flip the next intensity. |
| Geometry.ToggleTwiceRestores | src/lib.rs:530-541 | Two toggles while on bring the intensity back. |
| Colors.ContrastColor | src/lib.rs:3233-3241 | `get_contrast_color`: the result is white or the inverted colour, and never the colour itself. |
| Colors.ContrastColorCases | src/lib.rs:3233-3241 | White exactly for the grays 116..=139 and black; `(255-r, 255-g, 255-b)` for every colour outside that gray band. |
| Colors.ContrastColorInvolution | src/lib.rs:3233-3241 | Away from the gray band, black and white, the contrast of the contrast is the colour. |
| Colors.LighterOrDarker | src/lib.rs:3256-3270 | `get_lighter_or_darker_color`: the result always differs from the colour, and each component moves by at most 127. |
| Colors.LighterOrDarkerCases | src/lib.rs:3256-3270 | Darkened exactly when the components sum to ≥ 383 or one exceeds 128, and then none grows or ends above 128. Otherwise each gains exactly 127. |
| Colors.Gray | src/lib.rs:1869 | The gray byte is `(306 r + 601 g + 116 b) >> 10`, at most 254. |
| Colors.AsUsize | src/lib.rs:1838 | `i32 as usize`: a non-negative value is kept; a negative one wraps to at least 2^64 - 2^31, below 2^64. |
| Colors.GrayData | src/lib.rs:1837-1900 | The image has `OutWidth(depth)` bytes per pixel, and no gray byte of an RGB image reaches 255. |
| Colors.GrayImage | src/lib.rs:1837-1900 | The pixel loop builds exactly `GrayData` of `w as usize * h as usize` pixels, with `OutWidth(depth)` bytes per pixel. |
| Colors.GraySizeCases | src/lib.rs:1837-1838 | A zero side gives no pixels and always succeeds, whatever the other side's sign. Non-negative sides give `w * h` pixels. A negative side with a nonzero other side overflows or asks for an impossible capacity, so the input is refused. |
| Colors.GrayDataShape | src/lib.rs:1837-1900 | Length is `pixels` for Rgb8 and L8 and `2 * pixels` for Rgba8 and La8. Every odd byte is the source alpha, and every gray byte is the luma of its pixel. |
| Segment.SetAction | src/lib.rs:1589-1595 | `set_action`: the action is set; the data becomes clickable, underlined and not expired; nothing else changes. |
| Segment.ChangeAction | src/lib.rs:1597-1609 | `change_action`: a present action is set as above. Removing it makes the data expired, not clickable and not underlined. Nothing else changes. |
| Segment.ChangeActionAgreesWithSetAction | src/lib.rs:1597-1609 | Changing to a present action equals `set_action`, even after a removal. |
| Segment.IsVisibleIsOverlap | src/lib.rs:2199-2202 | `is_visible` is the inclusive overlap of the segment's vertical extent with the band. |
| Segment.NoOptions | src/lib.rs:2683-2704 | `RichDataOptions::new` carries the id. |
| Segment.UpdateChangesOnlyGivenFields | src/lib.rs:1694-1767 | Each flag, the text and the file path take the option when given and keep their value otherwise. Id, type, layout, search state and origin never change. |
| Segment.UpdateDataProperties | src/lib.rs:1694-1767 | `update_data_properties` never changes the id, the type, the layout bounds, the search state or the board flag. |
| Segment.UpdateAction | src/lib.rs:1748-1754 | An action with no items clears the action; another given action replaces it; none keeps it. |
| Segment.UpdateImage | src/lib.rs:1722-1766 | Image and geometry change only with a new image. An existing gray look is recomputed from the new image, and one is created when an image segment is disabled. |
| Segment.UpdateWithNoOptions | src/lib.rs:1694-1767 | Options that give nothing change nothing. |
| Segment.UpdateIdempotent | src/lib.rs:1694-1767 | Applying the same options twice equals applying them once. |
| Segment.DisableData | src/lib.rs:1783-1799 | `disable_data`: the segment is no longer clickable; id, text, type and action are kept. |
| Segment.DisableDataEffect | src/lib.rs:1783-1799 | Never clickable afterwards. Text: only strike-through and clickability change. Image: only clickability changes, plus a gray look at the target size when an image is present. |
| Segment.DisableDataIdempotent | src/lib.rs:1783-1799 | Disabling twice equals disabling once. |
| Segment.Expired | src/lib.rs:3290-3300 | An expired entry is not clickable (`clickable()` at src/lib.rs:2176-2178). |
| Segment.ExpireData | src/lib.rs:3285-3303 | Exactly the entries whose action category matches lose the action and become expired, not clickable, disabled and struck through. All other entries are unchanged. |
| Segment.ExpiredIsFinal | src/lib.rs:3285-3303 | An expired entry is no longer targeted, so expiring twice is expiring once. |
| TextSearch.RMatchStartsAreOccurrences | src/rich_reviewer.rs:836-840 | Every start `rmatch_indices` yields is an occurrence of the term. |
| TextSearch.RMatchStartsDescending | src/rich_reviewer.rs:836-840 | Starts come last match first, each at least a term length before the previous one. |
| TextSearch.RMatchStartsFindsLast | src/rich_reviewer.rs:836-840 | Something is found iff the term occurs, and the first start is the rightmost occurrence. |
| TextSearch.MatchPositionsProperties | src/rich_reviewer.rs:836-843 | Ranges are recorded iff the text contains the term. Each spans the term's length in characters over an occurrence. They are listed last first, without overlap. |
| TextSearch.MatchPositionsExample | src/lib.rs:3405-3413 | In "我爱中国" the term "中国" is the range (2, 4), in characters. |
| DocEdit.Format | src/lib.rs:271-294 | Every cursor and erase command renders as CSI, its parameters and a final byte among `A`-`H`, `J`, `K`. |
| DocEdit.FormatParseRoundTrip | src/lib.rs:271-294 | Every cursor and erase command renders as a control sequence that reads back as that command. |
| DocEdit.FormatInjective | src/lib.rs:271-294 | Distinct cursor and erase commands render as distinct text. |
| DocEdit.FormatExamples | src/lib.rs:271-294 | `CursorUp(3)` is `ESC[3A`, `CursorAbsolute(12, 5)` is `ESC[12;5H`, `EraseInLine(2)` is `ESC[2K`. |
| Cursor.CursorPos.constructor | src/rewrite_board.rs:28-30 | `n, m ≥ 1` and `max_n, max_m ≥ 2`, each the larger of the argument and the bound. |
| Cursor.CursorPos.Set | src/rewrite_board.rs:65-68 | Row and column are clamped into `[1, max_n]` and `[1, max_m]`; in-range values are kept. |
| Cursor.CursorPos.Get | src/rewrite_board.rs:71-73 | Returns the row and column. |
| Cursor.CursorPos.SetM | src/rewrite_board.rs:105-107 | The column is clamped into `[1, max_m]`; the row stays. |
| Cursor.CursorPos.SubN | src/rewrite_board.rs:122-124 | Row becomes `max(n - k, 1)`, for `k ≤ n` (unsigned subtraction). |
| Cursor.CursorPos.SubM | src/rewrite_board.rs:139-141 | Column becomes `max(m - k, 1)`, for `k ≤ m`. |
| Cursor.CursorPos.AddN | src/rewrite_board.rs:156-158 | Row grows by `k`, without a limit. |
| Cursor.CursorPos.AddM | src/rewrite_board.rs:173-175 | Column grows by `k`, without a limit. |
| Cursor.CursorPos.Dsr | src/rewrite_board.rs:178-180 | The report reads back as the current position. |
| Cursor.CprRoundTrip | src/rewrite_board.rs:178-180 | `ESC[n;mR` parses back to (n, m). |
| Cursor.CprExample | src/rewrite_board.rs:178-180 | The report for (3, 14) is `ESC[3;14R`. |
| Cursor.ClampInRange | src/rewrite_board.rs:65-68 | A clamped value lies in the range, is kept when already in it, and clamping is idempotent. |
| BoardText.SplitLinesProperties | src/rewrite_board.rs:251 | `split_inclusive("\r\n")`: the pieces concatenate to the text. None is empty; each but the last ends with CR LF; none holds CR LF elsewhere. |
| BoardText.RemoveCrProperties | src/rewrite_board.rs:255 | No CR is left, text without CR is unchanged, and only CRs are removed. |
| BoardText.RemoveCrAppend | src/rewrite_board.rs:255 | Removing CRs distributes over concatenation. |
| BoardText.CrLfPieceEndsWithNewline | src/rewrite_board.rs:287-290 | A piece ending in CR LF still ends in LF once cleaned. |
| BoardText.EraseToCursorAsWritten | src/rewrite_board.rs:305-326 | Mode 1 as the program scans: the row keeps its number of entries. |
| BoardText.EraseToCursorBlanks | src/rewrite_board.rs:305-326 | EL/ED mode 1, as written and as corrected, keeps every entry and its length and writes only spaces. |
| BoardText.EraseToCursorEffect | src/rewrite_board.rs:305-326 | Corrected mode 1: the first `col` columns of the row become spaces, the rest is unchanged. |
| BoardText.EraseToCursorAtBoundary | src/rewrite_board.rs:310 | As written, entries "ab","cd" at column 2 become "    "; corrected they become "  cd". |
| BoardText.InsideEntryBounds | src/rewrite_board.rs:310 | A column strictly inside an entry lies after the scanned characters and before the row's end. |
| BoardText.EraseToCursorAsWrittenInside | src/rewrite_board.rs:305-326 | When the cursor's column falls strictly inside an entry, mode 1 as written equals the corrected erase. |
| BoardText.EraseToCursorAsWrittenBlanksAll | src/rewrite_board.rs:305-326 | When the column falls inside no entry (on a boundary, at the end or past it), mode 1 as written blanks the whole row. |
| BoardText.EraseToCursorAsWrittenEffect | src/rewrite_board.rs:305-326 | Mode 1 as written keeps every entry at its length and writes only spaces. It blanks the first `col` columns when the column falls inside an entry, and the whole row otherwise. |
| BoardText.EraseFromCol | src/rewrite_board.rs:346-376 | The mode 0 scan never adds an entry. |
| BoardText.EraseFromColBlanks | src/rewrite_board.rs:346-376 | The mode 0 scan keeps a prefix of the entries at their lengths, writing only spaces. |
| BoardText.EraseFromColRow | src/rewrite_board.rs:346-376 | After the mode 0 scan the first `keep` characters are unchanged and everything after them is spaces. |
| BoardText.EraseToEndEffect | src/rewrite_board.rs:343-377 | Corrected mode 0: columns before the cursor are unchanged; the cursor's column and all after it are spaces. Column 1 empties the row. |
| BoardText.EraseToEndAsWritten | src/rewrite_board.rs:343-377 | Mode 0 of EL as written never adds an entry. |
| BoardText.EraseToEndAsWrittenEffect | src/rewrite_board.rs:343-377 | Mode 0 of EL as written: column 1 empties the row. Elsewhere the first `col` columns, the cursor's included, are kept and the rest is spaces. This equals the corrected erase at `col + 1`. |
| BoardText.EraseToEndKeepsCursorColumn | src/rewrite_board.rs:358-361 | As written, "abcd" at column 3 becomes "abc "; corrected it becomes "ab  ". |
| BoardText.EraseWhole | src/rewrite_board.rs:328-342 | EL mode 2 leaves at most one entry, whose text is `max_cols` spaces. |
| RewriteBoard.FlattenRowsAppend | src/rewrite_board.rs:293 | A row numbered after all others comes last among the map's values. |
| RewriteBoard.FlattenSingleRow | src/rewrite_board.rs:293 | One row flattens to its own entries. |
| RewriteBoard.AddLine | src/rewrite_board.rs:251-291 | One piece never removes a row, never moves the cursor up, and only appends to the overflow. |
| RewriteBoard.AddLines | src/rewrite_board.rs:251-291 | The same for any sequence of pieces. |
| RewriteBoard.AddLineEffect | src/rewrite_board.rs:251-291 | Per piece: no CR is stored. Below the board, rows and cursor are unchanged. Column 1 replaces the row, elsewhere the entry is appended. The column advances by the char count; an LF moves the cursor to (row + 1, 1). |
| RewriteBoard.AddLinesClean | src/rewrite_board.rs:251-291 | Writing keeps every stored row free of CR and marked as board data. |
| RewriteBoard.AddLinesBelowBoard | src/rewrite_board.rs:256-263 | Once below the board, every further piece goes only to the overflow. |
| RewriteBoard.EraseLineRowEffect | src/rewrite_board.rs:298-380 | EL on one row, as the program does it. Mode 1 keeps every entry at its length, writing only spaces. It blanks the first `col` columns, the corrected erase, when the column falls inside an entry, and the whole row otherwise. Mode 2 leaves at most one all-space entry. Other modes empty the row at column 1. Elsewhere they keep the first `col` columns, the cursor's included, and blank the rest, which is the corrected erase at `col + 1`. |
| RewriteBoard.EraseFromColEffect | src/rewrite_board.rs:442-467 | ED mode 0 on the cursor's row keeps the first `col` columns, blanks the rest, and keeps the row clean. |
| RewriteBoard.WholeRowsEffect | src/rewrite_board.rs:426-441 | Erasing rows whole keeps every row number and truncates each row in range to one all-space entry. Rows outside the range are unchanged. |
| RewriteBoard.DisplayErasedAbove | src/rewrite_board.rs:387-425 | ED mode 1 does to the cursor's row what EL mode 1 does, erases every row above whole and leaves the rows below alone. |
| RewriteBoard.DisplayErasedAll | src/rewrite_board.rs:426-441 | ED modes 2 and 3 erase every board row whole and leave rows past the board alone. |
| RewriteBoard.DisplayErasedBelow | src/rewrite_board.rs:442-486 | ED mode 0 keeps the cursor's row up to and including the cursor's column and blanks the rest, with no column-1 case. It erases the rows below down to `max_rows` whole and leaves the rows above and past the board alone. |
| RewriteBoard.DisplayErasedEffect | src/rewrite_board.rs:382-488 | ED keeps the set of row numbers and a clean board, and combines the three lemmas above, the cursor's row included. |
| RewriteBoard.DisplayErasedClean | src/rewrite_board.rs:382-488 | ED keeps the board clean. |
| RewriteBoard.EraseInLineAtBoundary | src/rewrite_board.rs:310 | On the board, EL mode 1 at column 2 of entries "ab", "cd" leaves "    ", where the corrected erase leaves "  cd". |
| RewriteBoard.EraseAfterCursorKeepsCursorColumn | src/rewrite_board.rs:343-377 | On the board, EL and ED mode 0 at column 3 of "abcd" leave "abc ", where the corrected erase leaves "ab  ". At column 1 EL empties the row, while ED leaves "a   ". |
| RewriteBoard.EraseToCursorIn | src/rewrite_board.rs:305-326 | The mode 1 scan over a row, stopping only at an entry that holds the column strictly inside it, computes `EraseToCursorAsWritten`. |
| RewriteBoard.EraseDisplayRows | src/rewrite_board.rs:382-488 | The scans of `erase_in_display` over the rows compute `DisplayErased`. |
| RewriteBoard.EraseFromColIn | src/rewrite_board.rs:346-376 | The mode 0 scan with its drain computes `EraseFromCol`. |
| RewriteBoard.EraseRowsAbove | src/rewrite_board.rs:412-424 | The upward loop erases rows `1..row-1` whole. |
| RewriteBoard.EraseRowsFrom | src/rewrite_board.rs:430-440 | The row loop erases rows `lo..=hi` whole. |
| RewriteBoard.ReWriteBoard.constructor | src/rewrite_board.rs:204-219 | Empty map, cursor at (1, 1), `bottom_y = top_y + rows·line_height + line_space·(rows-1)` for rows ≥ 1. |
| RewriteBoard.ReWriteBoard.Resize | src/rewrite_board.rs:222-226 | New sizes and the same bottom formula; rows and cursor are unchanged. |
| RewriteBoard.ReWriteBoard.AddData | src/rewrite_board.rs:245-296 | The rows and cursor are those of `AddLines` over the CR LF pieces. The result is all rows in ascending row order, then the overflow. |
| RewriteBoard.ReWriteBoard.WriteLine | src/rewrite_board.rs:252-290 | One loop pass equals `AddLine`. |
| RewriteBoard.ReWriteBoard.EraseInLine | src/rewrite_board.rs:298-380 | The rows become `LineErased` at the cursor, by the program's scans (`EraseLineRowEffect`); the board stays clean and the cursor does not move. |
| RewriteBoard.ReWriteBoard.EraseInDisplay | src/rewrite_board.rs:382-488 | The rows become `DisplayErased` at the cursor (`DisplayErasedEffect`); the board stays clean and the cursor does not move. |
| IdLookup.FindById | src/rich_text.rs:329 | An `Ok` index holds the id. On ascending ids it is `Ok` iff the id is present, and that entry is the only one with it. |
| Reviewer.MatchingBelowProperties | src/rich_reviewer.rs:826-850 | The result list is strictly descending and lists an index iff its segment's text contains the term. |
| Reviewer.SearchStateKept | src/rich_reviewer.rs:586-608 | Changing anything but the search state keeps the result list, focus and highlight valid. |
| Reviewer.SearchRecordsValid | src/rich_reviewer.rs:826-850 | Recording matches on a clean buffer gives a valid result list, matching indices highest first, with no highlight. |
| Reviewer.PrevFocus | src/rich_reviewer.rs:674-729 | No results gives no focus. Otherwise the focus is a recorded range of a listed segment. |
| Reviewer.NextFocus | src/rich_reviewer.rs:732-786 | Same guarantee as `PrevFocus`, for the forward direction. |
| Reviewer.NextThenPrevious | src/rich_reviewer.rs:674-786 | With a focus set, next then previous restores it. |
| Reviewer.PreviousThenNext | src/rich_reviewer.rs:674-786 | With a focus set, previous then next restores it. |
| Reviewer.NavigationWraps | src/rich_reviewer.rs:674-786 | Backwards from the last range of the last listed segment comes the first range of the first. Forwards from there comes the last range of the last. |
| Reviewer.CalcPanelHeight | src/rich_reviewer.rs:410-425 | The larger of the content height and the scroller height; an empty buffer counts only the padding. |
| Reviewer.VisibleRange | src/rich_reviewer.rs:472-488 | With something visible, `[from, to)` is the maximal visible run ending at the last visible segment, and nothing at or after `to` is visible. Otherwise it is `[0, len)`. |
| Reviewer.Searched | src/rich_reviewer.rs:826-850 | The buffer after a fresh search keeps its length; each segment has its search state dropped and its matches recorded. |
| Reviewer.RecordSegment | src/rich_reviewer.rs:832-845 | One pass of the search loop extends the recorded segments and the result list by one segment. |
| Reviewer.RecordMatches | src/rich_reviewer.rs:828-848 | Each segment records `rmatch_indices` ranges iff it matches. The list is the matching indices highest first; found iff non-empty. |
| Reviewer.RichReviewer.constructor | src/rich_reviewer.rs:359-368 | A panel over the snapshot with no search term, results or focus. |
| Reviewer.RichReviewer.BinarySearchWithDescOrder | src/rich_reviewer.rs:801-811 | `Ok(i)` holds the target. On a descending list it is `Ok` iff the target is listed, at its index. |
| Reviewer.RichReviewer.ClearSearchState | src/rich_reviewer.rs:853-862 | Every segment loses match ranges and highlight; results and focus are emptied; the term stays. |
| Reviewer.RichReviewer.ClearSearchResults | src/rich_reviewer.rs:865-869 | As above, and the term is dropped. |
| Reviewer.RichReviewer.SearchTarget | src/rich_reviewer.rs:826-850 | The buffer becomes `Searched` of the old one and the results the matching indices highest first. There is no focus; found iff results are non-empty. |
| Reviewer.RichReviewer.HighlightPrevious | src/rich_reviewer.rs:674-729 | The focus moves as `PrevFocus`; only highlights change, and the focused segment is highlighted at the focused range. |
| Reviewer.RichReviewer.HighlightNext | src/rich_reviewer.rs:732-786 | The focus moves as `NextFocus`; only highlights change. On a move to another segment the highlight is range 0 while the focus names the last range. |
| Reviewer.RichReviewer.SearchStr | src/rich_reviewer.rs:649-671 | A new term is searched afresh, as `Searched`, and the same term reuses the results. It reports whether there are results. When there are, the focus moves as `NextFocus` (forward) or `PrevFocus` (backward) from the search step's state: no focus after a fresh search, the old focus otherwise. Only highlights change, and the focused segment is highlighted as `HighlightNext`/`HighlightPrevious` do. Without results there is no focus. |
| Reviewer.RichReviewer.UpdateData | src/rich_reviewer.rs:586-608 | Only the segment with the id takes the update; search state is untouched; an unknown id changes nothing. |
| Reviewer.RichReviewer.DisableData | src/rich_reviewer.rs:610-633 | Only the segment with the id is disabled; search state is untouched; an unknown id changes nothing. |
| LiveBuffer.KeepNewest | src/rich_text.rs:223-226 | The newest `min(len, n)` elements in order; the last element survives. |
| LiveBuffer.KeepNewestNested | src/rich_text.rs:280-287 | Trimming to a bound and then to a smaller one is trimming to the smaller one. |
| LiveBuffer.AppendThenTrim | src/rich_text.rs:223-226 | Push-back then pop-front when over the bound is keeping the newest. |
| LiveBuffer.LiveUpdate | src/rich_text.rs:335-360 | Only text and flags change; blink and disabled are kept. |
| LiveBuffer.LiveUpdateIsRestrictedUpdate | src/rich_text.rs:326-363 | The update is the library update restricted to seven options. Every other option is ignored, and empty options change nothing. |
| LiveBuffer.LiveDisable | src/rich_text.rs:373-391 | Not clickable. Text: only strike-through is set. Image: only the pixels change, to the dimmed copy when one can be made. |
| LiveBuffer.LiveDisableAgreesOnText | src/rich_text.rs:366-397 | On text segments it agrees with the library's `disable_data`. |
| LiveBuffer.RichText.constructor | src/rich_text.rs:68-69 | An empty buffer bounded by 100. |
| LiveBuffer.RichText.Append | src/rich_text.rs:223-226 | The buffer keeps its newest entries within the bound, and the new one is last. |
| LiveBuffer.RichText.SetBufferMaxLines | src/rich_text.rs:280-287 | The bound is set and the newest entries are kept in order. |
| LiveBuffer.RichText.UpdateData | src/rich_text.rs:326-363 | Only the entry with the id takes `LiveUpdate`; an unknown id changes nothing. |
| LiveBuffer.RichText.DisableData | src/rich_text.rs:366-397 | Only the entry with the id takes `LiveDisable`; an unknown id changes nothing. |
| Selection.SelectedText | src/lib.rs:965-971 | The copied characters: none without a range, `line[from..to]` for a range inside the line, empty when `to ≤ from`. |
| Selection.LinePiece.constructor | src/lib.rs:900-920 | A piece of the given line with nothing selected. |
| Selection.LinePiece.SelectFrom | src/lib.rs:945-947 | The range runs from `from` to the end; copying gives `line[from..]`. |
| Selection.LinePiece.SelectTo | src/lib.rs:949-951 | The range runs from 0 to `to`; copying gives `line[..to]`. |
| Selection.LinePiece.SelectRange | src/lib.rs:953-955 | The range is `(from, to)`; the line is kept. |
| Selection.LinePiece.Deselect | src/lib.rs:957-959 | No range; copying gives nothing. |
| Selection.LinePiece.SelectAll | src/lib.rs:961-963 | The whole line; copying gives the line. |
| Selection.LinePiece.CopySelection | src/lib.rs:965-971 | The character loop appends exactly `SelectedText`. |
| Selection.CopyPieces | src/lib.rs:2836-2843 | The selections of the pieces, concatenated in order. |
| Selection.ClearSelectedPieces | src/lib.rs:2858-2865 | Every piece loses its selection and keeps its line, so nothing is copied. The list itself is left empty. |
| Selection.ReadingOrder | src/lib.rs:2918-2925 | The points are swapped exactly when the start lies lower on the panel or on the same y. |
| Selection.FromOrTo | src/lib.rs:2884-2894 | One step iff the piece exists, naming that piece. |
| Selection.AllOf | src/lib.rs:2940-2944 | Exactly the existing pieces in the range, in order, each selected whole. |
| Selection.MiddleAllProperties | src/lib.rs:2948-2958 | In reading order, inside the range, and every piece of every segment in the range selected whole. |
| Selection.SelectPlan | src/lib.rs:2913-3010 | The steps of any drag are in strict reading order, so no piece is selected twice, and name only existing pieces of segments `r_start..=r_end`. |
| Selection.AcrossSegments | src/lib.rs:2934-2968 | Across segments: steps strictly in reading order, so no piece twice. Only existing pieces of `r_start..=r_end`, and every piece strictly between selected whole. |
| Selection.OneSegmentProperties | src/lib.rs:2972-3005 | Within one segment: steps in reading order, on existing pieces, covering the pieces in between. |
| Selection.WithinSegment | src/lib.rs:2969-3006 | The same, for the plan of a drag within one segment. |
| Selection.WithinOnePiece | src/lib.rs:2994-3003 | Within one piece the copy runs from one point's character to the other's, both included, whichever way the drag went. |

## Left out

- Line layout is not modelled: `RichData::estimate`, `wrap_text_for_estimate`, `search_index_of_piece`, `locate_target_rd` and `LinePiece::get_cursor`. They depend on font metrics and floating point. `add_data`'s update of the cursor piece is therefore dropped, and a segment's laid-out pieces are not part of its record.
- Drawing, widgets and event handlers are left out: the painting, mouse cursor shapes, `redraw`, `show_search_results` and its scrolling, `show_piece`, `set_data`'s panel resize, and the floating-point scroll ratio on resize.
- Callbacks, notifiers, timers and the blink timer are I/O and concurrency, and are left out. Shared `Rc<RefCell>`/`Arc<RwLock>` fields are plain fields of one object.
- Image decoding and the toolkit image calls are left out. The live panel's `RgbImage::new(..).inactive()` is the parameter `dim` of `LiveBuffer.LiveDisable`. `From<UserData> for RichData` and the id generator are left out too; ids are given, and are ascending where a lemma needs it.
- The clipboard call `app::copy` at the end of `select_text` is left out; `Selection.CopiedText` is the text it would receive.
- `Selection.SelectPlan` lists the selection steps as values. The model does not capture the `Weak` references in the selected-pieces list, the pieces being shared with the layout, or dropped pieces being skipped on copy.
- `src/rich_reviewer.rs` calls `select_text2`, which is not part of this model; the selection follows `select_text` in `src/lib.rs`.
- `Colors.GrayImage`, and through it `Colors.GrayInputOk`, `Segment.Inactive`, `Segment.UpdateDefined` and the update and disable operations that call them: the requires excludes exactly the inputs on which `gray_image` panics. These are a pixel count or byte count over `isize::MAX`, where the product or the capacity overflows, and an input too short for the pixels read. A zero side with a negative other side is accepted and gives an empty image (`Colors.GraySizeCases`). Overflow checks are assumed on. A release build would wrap the product of two negative sizes instead of panicking, and the model does not follow that.
- Integers are unbounded, so `i32` overflow in coordinates and colours is not modelled. Where `usize` subtraction would underflow, the model puts the needed bound in a `requires`: `SubN`, `SubM`, the board's `rows ≥ 1` and `select_text`'s `r_start ≤ r_end`.
- Fonts, font sizes, colours not used by the rules, and the `LinePiece` geometry are left out.
- `Reviewer.VisibleRange` takes the band `top`/`bottom` as inputs. Its computation from the scroller position is drawing code.
- `Reviewer.RichReviewer.constructor`: requires a snapshot with no search state. `set_data` replaces the buffer but keeps the old result list and focus, and this model does not follow a search state that has gone stale that way.
- `Reviewer.RecordMatches`: requires a buffer with no search state. It only runs after `_clear_search_results`, which guarantees that.
- `Reviewer.RichReviewer.HighlightNext`: the program has a fallback branch for a focused segment missing from the result list. The class invariant rules that branch out, so the model does not carry it.
- `RewriteBoard.ReWriteBoard.Resize`: the cursor keeps its old limits, as in the program, so the cursor may lie outside a shrunk board.
- Per the program's revisions, `src/rich_text.rs` and `src/rich_reviewer.rs` are older than `src/lib.rs`. `LiveBuffer` models the live panel's own update and disable, not the library's.

## Findings

| source | as written | input that shows it | evidently intended | confidence | as-written member | corrected member |
|---|---|---|---|---|---|---|
| src/rewrite_board.rs:310 (same scan at 395) | EL/ED mode 1 keeps scanning once the running count reaches the cursor column, so every later entry is blanked too | row entries "ab", "cd", cursor column 2: the row becomes "    " | ECMA-48 section 8.3.41: erase from the start of the line up to and including the cursor, giving "  cd" | not executed | RewriteBoard.EraseInLineAtBoundary | BoardText.EraseToCursorEffect |
| src/rewrite_board.rs:358-361 (same at 454-457) | EL/ED mode 0 keeps the first `col` characters, so the character under the cursor survives. ED has no column-1 case, so at column 1 it keeps the first character | entry "abcd", cursor column 3: the row becomes "abc ". ED at column 1 leaves "a   " | ECMA-48 section 8.3.41: erase from the cursor position inclusive to the end of the line, giving "ab  " | not executed | RewriteBoard.EraseAfterCursorKeepsCursorColumn | BoardText.EraseToEndEffect |
