/**
 * The live panel's segment buffer (`RichText`): a bounded queue of
 * segments, oldest first. Appending beyond the bound drops the oldest
 * segment, lowering the bound drops the oldest segments until the buffer
 * fits, and segments are updated or disabled in place by id.
 *
 * This part of the program is an earlier revision than the segment rules
 * in `Segment`: its update takes only seven of the options, and its
 * disable dims an image through the toolkit instead of computing a
 * grayscale look.
 */
module LiveBuffer {
  import opened Common
  import opened Segment
  import opened IdLookup

  /** The bound a new panel starts with. */
  const DefaultMaxLines: nat := 100

  /** The newest `n` elements of `s`, in their order: what a queue bounded by `n` keeps. */
  function KeepNewest<T>(s: seq<T>, n: nat): (r: seq<T>)
    ensures |r| == Min(|s|, n)
    ensures r == s[|s| - |r|..]
    ensures |s| <= n ==> r == s
    ensures n >= 1 && s != [] ==> r[|r| - 1] == s[|s| - 1]
  {
    if |s| > n then s[|s| - n..] else s
  }

  /** Keeping the newest `n` of what is already kept keeps the same, and a smaller bound keeps a suffix. */
  lemma KeepNewestNested<T>(s: seq<T>, n: nat, m: nat)
    requires m <= n
    ensures KeepNewest(KeepNewest(s, n), m) == KeepNewest(s, m)
    ensures KeepNewest(KeepNewest(s, n), n) == KeepNewest(s, n)
  {
  }

  /**
   * Appending one element to a queue within its bound and then dropping
   * the oldest when over the bound is keeping the newest elements.
   */
  lemma AppendThenTrim<T>(s: seq<T>, x: T, n: nat)
    requires |s| <= n
    ensures KeepNewest(s + [x], n) == if |s + [x]| > n then (s + [x])[1..] else s + [x]
  {
  }

  /**
   * The options the live panel's update looks at: clickable, underline,
   * expired, text, foreground and background colour and strike-through.
   */
  function LiveOptions(o: RichDataOptions): (r: RichDataOptions)
    ensures r.id == o.id
  {
    NoOptions(o.id).(clickable := o.clickable, underline := o.underline, expired := o.expired,
                     text := o.text, fgColor := o.fgColor, bgColor := o.bgColor,
                     strikeThrough := o.strikeThrough)
  }

  /**
   * The live panel's update of one segment: each of the seven options it
   * knows replaces its field when given; nothing else of the segment
   * changes.
   */
  function LiveUpdate(o: RichDataOptions, rd: RichData): (r: RichData)
    ensures r.(text := rd.text, style := rd.style) == rd
    ensures r.style.blink == rd.style.blink && r.style.disabled == rd.style.disabled
  {
    var s := rd.style;
    rd.(style := s.(clickable := Override(o.clickable, s.clickable),
                    underline := Override(o.underline, s.underline),
                    expired := Override(o.expired, s.expired),
                    fgColor := Override(o.fgColor, s.fgColor),
                    bgColor := if o.bgColor.Some? then o.bgColor else s.bgColor,
                    strikeThrough := Override(o.strikeThrough, s.strikeThrough)),
        text := Override(o.text, rd.text))
  }

  /**
   * The live update is the segment update of the library given only the
   * seven options the live panel knows, so it ignores every other option,
   * and options that give nothing change nothing.
   */
  lemma LiveUpdateIsRestrictedUpdate(o: RichDataOptions, rd: RichData)
    ensures UpdateDefined(LiveOptions(o), rd)
    ensures LiveUpdate(o, rd) == UpdateDataProperties(LiveOptions(o), rd)
    ensures LiveUpdate(NoOptions(o.id), rd) == rd
  {
    var lo := LiveOptions(o);
    var r := UpdateDataProperties(lo, rd);
    assert UpdatedImage(lo, rd.img) == rd.img;
    assert r.img == rd.img;
    assert r.action == rd.action;
    assert r.style == LiveUpdate(o, rd).style;
  }

  /**
   * The live panel's disable of one segment: it stops being clickable; a
   * text segment is struck through, and an image segment's pixels are
   * replaced by the toolkit's dimmed copy when the toolkit can make one
   * (`dim` stands for building an RGB image of the segment's size and
   * taking its inactive look).
   */
  function LiveDisable(rd: RichData, dim: seq<byte> -> Option<seq<byte>>): (r: RichData)
    ensures !Clickable(r)
    ensures rd.dataType == Text ==> r == rd.(style := rd.style.(clickable := false, strikeThrough := true))
    ensures rd.dataType == Image ==>
      && r.style == rd.style.(clickable := false)
      && r.(style := rd.style, img := rd.img) == rd
      && r.img.(data := rd.img.data) == rd.img
      && (rd.img.data.Some? && dim(rd.img.data.value).Some? ==> r.img.data == dim(rd.img.data.value))
      && (rd.img.data.None? || dim(rd.img.data.value).None? ==> r.img == rd.img)
  {
    var c := rd.(style := rd.style.(clickable := false));
    match rd.dataType
    case Text => c.(style := c.style.(strikeThrough := true))
    case Image =>
      if c.img.data.Some? && dim(c.img.data.value).Some? then
        c.(img := c.img.(data := dim(c.img.data.value)))
      else c
  }

  /** On a text segment the live disable and the library's disable agree. */
  lemma LiveDisableAgreesOnText(rd: RichData, dim: seq<byte> -> Option<seq<byte>>)
    requires rd.dataType == Text
    ensures DisableDefined(rd)
    ensures LiveDisable(rd, dim) == Segment.DisableData(rd)
  {
  }

  class RichText {
    var buffer: seq<RichData>
    var bufferMaxLines: nat

    /** The buffer never holds more segments than its bound. */
    ghost predicate Valid()
      reads this
    {
      |buffer| <= bufferMaxLines
    }

    /** `RichText::new`: an empty buffer bounded by 100 segments. */
    constructor ()
      ensures Valid()
      ensures buffer == [] && bufferMaxLines == DefaultMaxLines
    {
      buffer := [];
      bufferMaxLines := DefaultMaxLines;
    }

    /**
     * `append`: the segment goes to the back and, when that makes the
     * buffer longer than its bound, the oldest segment is dropped. The
     * buffer keeps its newest segments, the new one last.
     */
    method Append(rd: RichData)
      requires Valid()
      modifies this
      ensures Valid()
      ensures bufferMaxLines == old(bufferMaxLines)
      ensures buffer == KeepNewest(old(buffer) + [rd], bufferMaxLines)
      ensures bufferMaxLines >= 1 ==> buffer[|buffer| - 1] == rd
    {
      AppendThenTrim(buffer, rd, bufferMaxLines);
      buffer := buffer + [rd];
      if |buffer| > bufferMaxLines {
        buffer := buffer[1..];
      }
    }

    /**
     * `set_buffer_max_lines`: sets the bound and drops the oldest segments
     * until the buffer fits, keeping the newest in their order.
     */
    method SetBufferMaxLines(maxLines: nat)
      modifies this
      ensures Valid()
      ensures bufferMaxLines == maxLines
      ensures buffer == KeepNewest(old(buffer), maxLines)
    {
      bufferMaxLines := maxLines;
      if |buffer| > bufferMaxLines {
        buffer := buffer[|buffer| - bufferMaxLines..];
      }
    }

    /**
     * `update_data`: the segment with the options' id, found by binary
     * search, takes the live update. An unknown id changes nothing; on an
     * id-ordered buffer exactly the segment with that id changes.
     */
    method UpdateData(o: RichDataOptions)
      modifies this
      ensures bufferMaxLines == old(bufferMaxLines) && |buffer| == |old(buffer)|
      ensures forall i | 0 <= i < |buffer| ::
        buffer[i] == old(buffer[i]) || (old(buffer[i]).id == o.id && buffer[i] == LiveUpdate(o, old(buffer[i])))
      ensures (forall i | 0 <= i < |buffer| :: old(buffer[i]).id != o.id) ==> buffer == old(buffer)
      ensures IdsAscending(old(buffer)) ==> forall i | 0 <= i < |buffer| ::
        buffer[i] == if old(buffer[i]).id == o.id then LiveUpdate(o, old(buffer[i])) else old(buffer[i])
    {
      var r := FindById(buffer, o.id);
      if r.Ok? {
        buffer := buffer[r.value := LiveUpdate(o, buffer[r.value])];
      }
    }

    /**
     * `disable_data`: the segment with the given id, found by binary
     * search, is disabled. An unknown id changes nothing; on an id-ordered
     * buffer exactly the segment with that id changes.
     */
    method DisableData(id: int, dim: seq<byte> -> Option<seq<byte>>)
      modifies this
      ensures bufferMaxLines == old(bufferMaxLines) && |buffer| == |old(buffer)|
      ensures forall i | 0 <= i < |buffer| ::
        buffer[i] == old(buffer[i]) || (old(buffer[i]).id == id && buffer[i] == LiveDisable(old(buffer[i]), dim))
      ensures (forall i | 0 <= i < |buffer| :: old(buffer[i]).id != id) ==> buffer == old(buffer)
      ensures IdsAscending(old(buffer)) ==> forall i | 0 <= i < |buffer| ::
        buffer[i] == if old(buffer[i]).id == id then LiveDisable(old(buffer[i]), dim) else old(buffer[i])
    {
      var r := FindById(buffer, id);
      if r.Ok? {
        buffer := buffer[r.value := LiveDisable(buffer[r.value], dim)];
      }
    }
  }
}
