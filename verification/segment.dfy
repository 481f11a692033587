/**
 * The segment record (`RichData`) every buffer of the viewer holds, the
 * user-facing record it is built from (`UserData`), the partial-update
 * options record (`RichDataOptions`), and the rules that update, disable
 * and expire segments.
 *
 * A segment is a plain Rust struct updated through an exclusive `&mut`
 * borrow, so no other reference can observe it mid-update; each update is
 * therefore a function from the old record to the new one. Fonts, line
 * heights and the laid-out line pieces belong to layout and are not part
 * of the record here.
 */
module Segment {
  import opened Common
  import opened Colors
  import Geometry

  /** `DataType`. */
  datatype DataType = Text | Image

  /** `ActionItem`: a menu entry and the command it sends back. */
  datatype ActionItem = ActionItem(desc: string, cmd: string)

  /** `Action`: the interaction attached to a segment. */
  datatype Action = Action(title: string, kind: byte, items: seq<ActionItem>, active: Option<string>, category: Option<string>)

  /**
   * `UserData`: the record callers hand in; only the interaction-related
   * fields are kept here.
   */
  datatype UserData = UserData(
    id: int, text: string, dataType: DataType,
    underline: bool, clickable: bool, expired: bool,
    blink: bool, disabled: bool, strikeThrough: bool,
    action: Option<Action>)

  /** `UserData::set_action`: attaching an action makes the data clickable, underlined and current. */
  function SetAction(u: UserData, a: Action): (r: UserData)
    ensures r.action == Some(a) && r.clickable && r.underline && !r.expired
    ensures r.(action := u.action, clickable := u.clickable, underline := u.underline, expired := u.expired) == u
  {
    u.(action := Some(a), clickable := true, underline := true, expired := false)
  }

  /**
   * `UserData::change_action`: a new action behaves as `set_action`;
   * removing the action makes the data expired, not clickable and not
   * underlined.
   */
  function ChangeAction(u: UserData, a: Option<Action>): (r: UserData)
    ensures r.action == a
    ensures r.clickable == a.Some? && r.underline == a.Some? && r.expired == a.None?
    ensures r.(action := u.action, clickable := u.clickable, underline := u.underline, expired := u.expired) == u
  {
    if a.Some? then SetAction(u, a.value)
    else u.(action := None, clickable := false, underline := false, expired := true)
  }

  /** Changing to a present action is setting it, whatever the action was before. */
  lemma ChangeActionAgreesWithSetAction(u: UserData, a: Action)
    ensures ChangeAction(u, Some(a)) == SetAction(u, a)
    ensures ChangeAction(ChangeAction(u, None), Some(a)) == SetAction(u, a)
  {
  }

  /**
   * The presentation and interaction flags of a segment.
   */
  datatype Style = Style(
    fgColor: Color,
    bgColor: Option<Color>,
    underline: bool,
    clickable: bool,
    expired: bool,
    blink: bool,
    disabled: bool,
    strikeThrough: bool)

  /**
   * The image part of a segment: the pixel data, its depth and size, the
   * size it is drawn at, its grayscale "disabled" look and the file it was
   * stored to.
   */
  datatype ImageInfo = ImageInfo(
    data: Option<seq<byte>>,
    depth: ColorDepth,
    width: int,
    height: int,
    targetWidth: int,
    targetHeight: int,
    inactive: Option<seq<byte>>,
    filePath: Option<string>)

  /**
   * `RichData`. `vBounds` holds the top and bottom y and the start and
   * end x of the laid-out segment; `searchResultPositions` the character
   * ranges of search matches and `searchHighlightPos` the one in focus;
   * `rewriteBoardData` marks segments that come from the cursor-addressed
   * board.
   */
  datatype RichData = RichData(
    id: int,
    text: string,
    style: Style,
    vBounds: (int, int, int, int),
    dataType: DataType,
    img: ImageInfo,
    searchResultPositions: Option<seq<(nat, nat)>>,
    searchHighlightPos: Option<nat>,
    action: Option<Action>,
    rewriteBoardData: bool)

  /** `LinedData::clickable`: a segment reacts to the mouse only while it is clickable and not expired. */
  predicate Clickable(rd: RichData)
  {
    rd.style.clickable && !rd.style.expired
  }

  /**
   * `LinedData::is_visible`: the segment's vertical extent meets the band
   * from `top` to `bottom`, edges included.
   */
  predicate IsVisible(rd: RichData, top: int, bottom: int)
  {
    !(rd.vBounds.1 < top || rd.vBounds.0 > bottom)
  }

  /** Visibility is the inclusive overlap test applied to the segment's extent and the band. */
  lemma IsVisibleIsOverlap(rd: RichData, top: int, bottom: int)
    ensures IsVisible(rd, top, bottom) <==>
      Geometry.IsOverlap(
        Geometry.Rectangle(0, rd.vBounds.0, 0, rd.vBounds.1 - rd.vBounds.0),
        Geometry.Rectangle(0, top, 0, bottom - top))
  {
  }

  /** `RichDataOptions`: every field but `id` is optional; `None` means leave as it is. */
  datatype RichDataOptions = RichDataOptions(
    id: int,
    clickable: Option<bool>,
    underline: Option<bool>,
    expired: Option<bool>,
    text: Option<string>,
    fgColor: Option<Color>,
    bgColor: Option<Color>,
    strikeThrough: Option<bool>,
    blink: Option<bool>,
    disabled: Option<bool>,
    image: Option<seq<byte>>,
    imageWidth: Option<int>,
    imageHeight: Option<int>,
    imageTargetWidth: Option<int>,
    imageTargetHeight: Option<int>,
    imageColorDepth: Option<ColorDepth>,
    imageFilePath: Option<string>,
    action: Option<Action>)

  /** `RichDataOptions::new`: options that change nothing. */
  function NoOptions(id: int): (o: RichDataOptions)
    ensures o.id == id
  {
    RichDataOptions(id, None, None, None, None, None, None, None, None, None,
                    None, None, None, None, None, None, None, None)
  }

  /** The option's value if given, otherwise the current one. */
  function Override<T>(o: Option<T>, current: T): T
  {
    if o.Some? then o.value else current
  }

  /** The flags after an update; `disabled` included. */
  function UpdatedStyle(o: RichDataOptions, s: Style): Style
  {
    Style(
      Override(o.fgColor, s.fgColor),
      if o.bgColor.Some? then o.bgColor else s.bgColor,
      Override(o.underline, s.underline),
      Override(o.clickable, s.clickable),
      Override(o.expired, s.expired),
      Override(o.blink, s.blink),
      Override(o.disabled, s.disabled),
      Override(o.strikeThrough, s.strikeThrough))
  }

  /** The image geometry after an update: it changes only together with a new image. */
  function ImageParams(o: RichDataOptions, im: ImageInfo): ImageInfo
  {
    if o.image.None? then im
    else im.(depth := Override(o.imageColorDepth, im.depth),
             targetWidth := Override(o.imageTargetWidth, im.targetWidth),
             targetHeight := Override(o.imageTargetHeight, im.targetHeight),
             width := Override(o.imageWidth, im.width),
             height := Override(o.imageHeight, im.height))
  }

  /** The grayscale look of `data` read at the image's own size and depth. */
  function Inactive(data: seq<byte>, im: ImageInfo): seq<byte>
    requires GrayInputOk(data, im.width, im.height, im.depth)
  {
    GrayData(data, im.depth, PixelCount(im.width, im.height))
  }

  /**
   * What `update_data_properties` needs to run without panicking: every
   * grayscale image it computes has a well-formed input (the new image when
   * a disabled look already exists, the current image when the update
   * disables an image segment that has none yet).
   */
  predicate UpdateDefined(o: RichDataOptions, rd: RichData)
  {
    var p := ImageParams(o, rd.img);
    var data := if o.image.Some? then o.image else rd.img.data;
    (o.image.Some? && rd.img.inactive.Some? ==>
      GrayInputOk(o.image.value, p.width, p.height, p.depth))
    && (o.disabled == Some(true) && rd.dataType == Image && rd.img.inactive.None? && data.Some? ==>
      GrayInputOk(data.value, p.width, p.height, p.depth))
  }

  /** The image part after the image options: new data, geometry and a recomputed disabled look. */
  function UpdatedImage(o: RichDataOptions, im: ImageInfo): (r: ImageInfo)
    requires o.image.Some? && im.inactive.Some? ==>
      GrayInputOk(o.image.value, ImageParams(o, im).width, ImageParams(o, im).height, ImageParams(o, im).depth)
  {
    var p := ImageParams(o, im);
    var imaged :=
      if o.image.None? then p
      else p.(inactive := if p.inactive.Some? then Some(Inactive(o.image.value, p)) else None,
              data := o.image);
    imaged.(filePath := if o.imageFilePath.Some? then o.imageFilePath else imaged.filePath)
  }

  /** The action after an update: an action with no items removes it. */
  function UpdatedAction(o: Option<Action>, a: Option<Action>): Option<Action>
  {
    if o.None? then a
    else if |o.value.items| == 0 then None
    else o
  }

  /**
   * `update_data_properties`: the flags, the text, the image, the file
   * path and the action each take the options given; finally an image
   * segment that the update disables gets a grayscale look if it has none.
   */
  function UpdateDataProperties(o: RichDataOptions, rd: RichData): (r: RichData)
    requires UpdateDefined(o, rd)
    ensures r.id == rd.id && r.dataType == rd.dataType && r.vBounds == rd.vBounds
    ensures r.searchResultPositions == rd.searchResultPositions && r.searchHighlightPos == rd.searchHighlightPos
    ensures r.rewriteBoardData == rd.rewriteBoardData
  {
    var im := UpdatedImage(o, rd.img);
    var im' :=
      if o.disabled == Some(true) && rd.dataType == Image && im.inactive.None? && im.data.Some? then
        im.(inactive := Some(Inactive(im.data.value, im)))
      else im;
    rd.(text := Override(o.text, rd.text),
        style := UpdatedStyle(o, rd.style),
        img := im',
        action := UpdatedAction(o.action, rd.action))
  }

  /**
   * Each flag, the text and the file path take the option's value when one
   * is given and keep their own otherwise; identity, type, layout, search
   * state and origin are never touched.
   */
  lemma UpdateChangesOnlyGivenFields(o: RichDataOptions, rd: RichData)
    requires UpdateDefined(o, rd)
    ensures var r := UpdateDataProperties(o, rd);
      && r.style.clickable == Override(o.clickable, rd.style.clickable)
      && r.style.underline == Override(o.underline, rd.style.underline)
      && r.style.expired == Override(o.expired, rd.style.expired)
      && r.style.fgColor == Override(o.fgColor, rd.style.fgColor)
      && r.style.bgColor == (if o.bgColor.Some? then o.bgColor else rd.style.bgColor)
      && r.style.strikeThrough == Override(o.strikeThrough, rd.style.strikeThrough)
      && r.style.blink == Override(o.blink, rd.style.blink)
      && r.style.disabled == Override(o.disabled, rd.style.disabled)
      && r.text == Override(o.text, rd.text)
      && r.img.filePath == (if o.imageFilePath.Some? then o.imageFilePath else rd.img.filePath)
      && r.id == rd.id && r.dataType == rd.dataType && r.vBounds == rd.vBounds
      && r.searchResultPositions == rd.searchResultPositions
      && r.searchHighlightPos == rd.searchHighlightPos
      && r.rewriteBoardData == rd.rewriteBoardData
  {
  }

  /**
   * An action with an empty item list removes the segment's action; any
   * other given action replaces it; without one the action is kept.
   */
  lemma UpdateAction(o: RichDataOptions, rd: RichData)
    requires UpdateDefined(o, rd)
    ensures var r := UpdateDataProperties(o, rd);
      && (o.action.Some? && |o.action.value.items| == 0 ==> r.action.None?)
      && (o.action.Some? && |o.action.value.items| > 0 ==> r.action == o.action)
      && (o.action.None? ==> r.action == rd.action)
  {
  }

  /**
   * The image and its geometry change only together with a new image; the
   * grayscale look is recomputed from the new image when one existed, and
   * created when an image segment that has an image becomes disabled.
   */
  lemma UpdateImage(o: RichDataOptions, rd: RichData)
    requires UpdateDefined(o, rd)
    ensures var r := UpdateDataProperties(o, rd);
      && r.img.data == (if o.image.Some? then o.image else rd.img.data)
      && (o.image.None? ==> r.img.(inactive := rd.img.inactive, filePath := rd.img.filePath) == rd.img)
      && (rd.img.inactive.Some? ==>
            r.img.inactive == (if o.image.Some? then Some(Inactive(o.image.value, r.img)) else rd.img.inactive))
      && (rd.img.inactive.None? ==>
            (r.img.inactive.Some? <==> o.disabled == Some(true) && rd.dataType == Image && r.img.data.Some?))
  {
  }

  /** Options that give nothing leave the segment as it is. */
  lemma UpdateWithNoOptions(rd: RichData, id: int)
    ensures UpdateDefined(NoOptions(id), rd)
    ensures UpdateDataProperties(NoOptions(id), rd) == rd
  {
  }

  /** Applying the same options twice has the effect of applying them once. */
  lemma UpdateIdempotent(o: RichDataOptions, rd: RichData)
    requires UpdateDefined(o, rd)
    ensures UpdateDefined(o, UpdateDataProperties(o, rd))
    ensures UpdateDataProperties(o, UpdateDataProperties(o, rd)) == UpdateDataProperties(o, rd)
  {
    var r := UpdateDataProperties(o, rd);
    assert ImageParams(o, r.img) == r.img;
  }

  /**
   * What `disable_data` needs to run without panicking: an image segment
   * without a grayscale look has an image of its target size and depth.
   */
  predicate DisableDefined(rd: RichData)
  {
    rd.dataType == Image && rd.img.inactive.None? && rd.img.data.Some? ==>
      GrayInputOk(rd.img.data.value, rd.img.targetWidth, rd.img.targetHeight, rd.img.depth)
  }

  /**
   * `disable_data`: the segment stops being clickable; a text segment is
   * struck through and an image segment gets its grayscale look, computed
   * at the target size, if it has none.
   */
  function DisableData(rd: RichData): (r: RichData)
    requires DisableDefined(rd)
    ensures !r.style.clickable && !Clickable(r)
    ensures r.id == rd.id && r.text == rd.text && r.dataType == rd.dataType && r.action == rd.action
  {
    var c := rd.(style := rd.style.(clickable := false));
    match rd.dataType
    case Text => c.(style := c.style.(strikeThrough := true))
    case Image =>
      if c.img.inactive.None? && c.img.data.Some? then
        c.(img := c.img.(inactive := Some(GrayData(c.img.data.value, c.img.depth, PixelCount(c.img.targetWidth, c.img.targetHeight)))))
      else c
  }

  /**
   * A disabled segment is never clickable; a text segment changes only in
   * being struck through and not clickable, and an image segment changes
   * only in its clickability and in gaining a grayscale look when it has an
   * image.
   */
  lemma DisableDataEffect(rd: RichData)
    requires DisableDefined(rd)
    ensures var r := DisableData(rd);
      && !Clickable(r)
      && (rd.dataType == Text ==> r == rd.(style := rd.style.(clickable := false, strikeThrough := true)))
      && (rd.dataType == Image ==>
            && r.(img := rd.img) == rd.(style := rd.style.(clickable := false))
            && r.img.(inactive := rd.img.inactive) == rd.img
            && (rd.img.data.Some? ==> r.img.inactive.Some?))
  {
  }

  /** Disabling an already disabled segment changes nothing more. */
  lemma DisableDataIdempotent(rd: RichData)
    requires DisableDefined(rd)
    ensures DisableDefined(DisableData(rd))
    ensures DisableData(DisableData(rd)) == DisableData(rd)
  {
  }

  /** The entries `expire_data` targets: those whose action belongs to the category. */
  predicate ShouldExpire(rd: RichData, category: string)
  {
    rd.action.Some? && rd.action.value.category == Some(category)
  }

  /** What `expire_data` makes of a targeted entry. */
  function Expired(rd: RichData): (r: RichData)
    ensures !Clickable(r)
  {
    rd.(action := None, style := rd.style.(expired := true, clickable := false, disabled := true, strikeThrough := true))
  }

  /**
   * `expire_data`: in place over the buffer, every entry whose action
   * belongs to the category loses the action and becomes expired, not
   * clickable, disabled and struck through; all other entries are left as
   * they are.
   */
  method ExpireData(buffer: array<RichData>, category: string)
    modifies buffer
    ensures forall i :: 0 <= i < buffer.Length ==>
      buffer[i] == if ShouldExpire(old(buffer[i]), category) then Expired(old(buffer[i])) else old(buffer[i])
    ensures forall i :: 0 <= i < buffer.Length && ShouldExpire(old(buffer[i]), category) ==> !Clickable(buffer[i])
  {
    var i := 0;
    while i < buffer.Length
      invariant 0 <= i <= buffer.Length
      invariant forall k :: 0 <= k < i ==>
        buffer[k] == if ShouldExpire(old(buffer[k]), category) then Expired(old(buffer[k])) else old(buffer[k])
      invariant forall k :: i <= k < buffer.Length ==> buffer[k] == old(buffer[k])
    {
      if ShouldExpire(buffer[i], category) {
        buffer[i] := Expired(buffer[i]);
      }
      i := i + 1;
    }
  }

  /** Once expired, an entry is no longer targeted, so expiring twice is expiring once. */
  lemma ExpiredIsFinal(rd: RichData, category: string)
    ensures !ShouldExpire(Expired(rd), category)
    ensures Expired(rd).style.expired && Expired(rd).action.None?
  {
  }
}
