/**
 * `DocEditType`: the data and editing commands the live panel consumes,
 * and their textual form (`Display`). The cursor and erase commands render
 * as ECMA-48 control sequences: CSI (ESC `[`), the decimal parameters and
 * the final byte — CUU `A` (ECMA-48 section 8.3.22), CUD `B` (8.3.19), CUF
 * `C` (8.3.20), CUB `D` (8.3.18), CNL `E` (8.3.12), CPL `F` (8.3.13), CHA
 * `G` (8.3.9), CUP `n;mH` (8.3.21), ED `J` (8.3.39) and EL `K` (8.3.41).
 *
 * `ParseCsi` is an independent reader of those sequences; the lemmas show
 * that rendering then reading gives every cursor and erase command back.
 */
module DocEdit {
  import opened Common
  import Segment

  /**
   * `DocEditType`. The cursor-position-report callback is represented only
   * by the reference count its debug form prints.
   */
  datatype DocEditType =
    | Data(ud: Segment.UserData)
    | EraseInLine(mode: byte)
    | EraseInDisplay(mode: byte)
    | CursorUp(n: nat)
    | CursorDown(n: nat)
    | CursorBack(n: nat)
    | CursorForward(n: nat)
    | CursorNextLine(n: nat)
    | CursorPreviousLine(n: nat)
    | CursorHorizontalAbsolute(n: nat)
    | CursorAbsolute(row: nat, col: nat)
    | ToggleCursor(param: string, show: bool)
    | Expire(target: string)
    | RemoteFlowControl(code: byte)
    | CursorPosReport(strongCount: nat)
    | PanelFlowEnd

  /** The Control Sequence Introducer, ESC `[`. */
  const Csi: string := "\U{1b}["

  /** The commands that render as a control sequence with numeric parameters. */
  predicate IsCsiCommand(e: DocEditType)
  {
    e.EraseInLine? || e.EraseInDisplay? || e.CursorUp? || e.CursorDown? || e.CursorBack?
    || e.CursorForward? || e.CursorNextLine? || e.CursorPreviousLine?
    || e.CursorHorizontalAbsolute? || e.CursorAbsolute?
  }

  /** `impl Display for DocEditType`. */
  function Format(e: DocEditType): (r: string)
    ensures IsCsiCommand(e) ==> |r| >= 3 && r[..2] == Csi && r[|r| - 1] in "ABCDEFGHJK"
  {
    match e
    case Data(ud) => ud.text
    case CursorUp(n) => Csi + Decimal(n) + "A"
    case CursorDown(n) => Csi + Decimal(n) + "B"
    case CursorForward(n) => Csi + Decimal(n) + "C"
    case CursorBack(n) => Csi + Decimal(n) + "D"
    case CursorNextLine(n) => Csi + Decimal(n) + "E"
    case CursorPreviousLine(n) => Csi + Decimal(n) + "F"
    case CursorHorizontalAbsolute(n) => Csi + Decimal(n) + "G"
    case CursorAbsolute(n, m) => Csi + Decimal(n) + ";" + Decimal(m) + "H"
    case EraseInDisplay(n) => Csi + Decimal(n as nat) + "J"
    case EraseInLine(n) => Csi + Decimal(n as nat) + "K"
    case ToggleCursor(param, show) => Csi + param + (if show then "h" else "l")
    case Expire(target) => "<EXPIRE " + target + ">"
    case RemoteFlowControl(code) => "远程流控制子协商开关：" + Decimal(code as nat) + ">"
    case CursorPosReport(count) => "汇报光标位置 CprCallback " + Decimal(count)
    case PanelFlowEnd => "面板流结束"
  }

  /** The part of `s` before its first `sep`, and the part after it. */
  function SplitFirst(s: string, sep: char): (r: Option<(string, string)>)
    ensures r.Some? ==> s == r.value.0 + [sep] + r.value.1 && sep !in r.value.0
    ensures r.None? <==> sep !in s
  {
    if |s| == 0 then None
    else if s[0] == sep then Some(([], s[1..]))
    else
      match SplitFirst(s[1..], sep)
      case None => None
      case Some((a, b)) => Some(([s[0]] + a, b))
  }

  /** The command a one-parameter control sequence with this final byte stands for. */
  function SingleParam(final: char, n: nat): Option<DocEditType>
  {
    match final
    case 'A' => Some(CursorUp(n))
    case 'B' => Some(CursorDown(n))
    case 'C' => Some(CursorForward(n))
    case 'D' => Some(CursorBack(n))
    case 'E' => Some(CursorNextLine(n))
    case 'F' => Some(CursorPreviousLine(n))
    case 'G' => Some(CursorHorizontalAbsolute(n))
    case 'J' => if n < 256 then Some(EraseInDisplay(n as byte)) else None
    case 'K' => if n < 256 then Some(EraseInLine(n as byte)) else None
    case _ => None
  }

  /**
   * Reads a control sequence of the forms `Format` writes for the cursor
   * and erase commands: CSI, one decimal parameter and a final byte among
   * `A`..`G`, `J`, `K`, or CSI, two parameters separated by `;` and `H`.
   */
  function ParseCsi(s: string): (r: Option<DocEditType>)
    ensures r.Some? ==> IsCsiCommand(r.value)
  {
    if |s| < 3 || s[..2] != Csi then None
    else
      var body, final := s[2..|s| - 1], s[|s| - 1];
      if final == 'H' then
        match SplitFirst(body, ';')
        case None => None
        case Some((a, b)) =>
          match (ParseDecimal(a), ParseDecimal(b))
          case (Some(n), Some(m)) => Some(CursorAbsolute(n, m))
          case _ => None
      else
        match ParseDecimal(body)
        case None => None
        case Some(n) => SingleParam(final, n)
  }

  /** A rendered number never holds the parameter separator. */
  lemma DecimalHasNoSeparator(n: nat)
    ensures ';' !in Decimal(n)
  {
    DecimalWellFormed(n);
    assert forall i :: 0 <= i < |Decimal(n)| ==> Decimal(n)[i] != ';';
  }

  /** Splitting at a separator that the first part lacks recovers both parts. */
  lemma {:induction false} SplitFirstAt(x: string, y: string, sep: char)
    requires sep !in x
    ensures SplitFirst(x + [sep] + y, sep) == Some((x, y))
    decreases |x|
  {
    var s := x + [sep] + y;
    if x == [] {
      assert s[1..] == y;
    } else {
      assert s[0] == x[0] != sep;
      assert s[1..] == x[1..] + [sep] + y;
      SplitFirstAt(x[1..], y, sep);
      assert [x[0]] + x[1..] == x;
    }
  }

  /** Splitting a rendered `n;m` parameter list at its separator gives back the two parameters. */
  lemma SplitRenderedPair(n: nat, m: nat)
    ensures SplitFirst(Decimal(n) + ";" + Decimal(m), ';') == Some((Decimal(n), Decimal(m)))
  {
    DecimalHasNoSeparator(n);
    SplitFirstAt(Decimal(n), Decimal(m), ';');
  }

  /** A control sequence splits back into its introducer, its parameters and its final byte. */
  lemma CsiParts(body: string, final: char)
    ensures var s := Csi + body + [final];
      |s| >= 3 && s[..2] == Csi && s[2..|s| - 1] == body && s[|s| - 1] == final
  {
    var s := Csi + body + [final];
    assert s[..2] == Csi;
    assert s[2..|s| - 1] == body;
  }

  /** A one-parameter control sequence reads back as the command its final byte names. */
  lemma ParseSingleParam(n: nat, final: char)
    requires final != 'H'
    ensures ParseCsi(Csi + Decimal(n) + [final]) == SingleParam(final, n)
  {
    CsiParts(Decimal(n), final);
    DecimalRoundTrip(n);
  }

  /** A rendered CUP reads back as the same position. */
  lemma ParseCursorAbsolute(n: nat, m: nat)
    ensures ParseCsi(Csi + Decimal(n) + ";" + Decimal(m) + "H") == Some(CursorAbsolute(n, m))
  {
    assert Csi + Decimal(n) + ";" + Decimal(m) + "H" == Csi + (Decimal(n) + ";" + Decimal(m)) + ['H'];
    CsiParts(Decimal(n) + ";" + Decimal(m), 'H');
    DecimalRoundTrip(n);
    DecimalRoundTrip(m);
    SplitRenderedPair(n, m);
  }

  /** The seven cursor moves read back as themselves. */
  lemma FormatParseMove(e: DocEditType)
    requires e.CursorUp? || e.CursorDown? || e.CursorForward? || e.CursorBack?
             || e.CursorNextLine? || e.CursorPreviousLine? || e.CursorHorizontalAbsolute?
    ensures ParseCsi(Format(e)) == Some(e)
  {
    var final :=
      if e.CursorUp? then 'A' else if e.CursorDown? then 'B' else if e.CursorForward? then 'C'
      else if e.CursorBack? then 'D' else if e.CursorNextLine? then 'E'
      else if e.CursorPreviousLine? then 'F' else 'G';
    assert Format(e) == Csi + Decimal(e.n) + [final];
    ParseSingleParam(e.n, final);
  }

  /** EL and ED read back as themselves. */
  lemma FormatParseErase(e: DocEditType)
    requires e.EraseInLine? || e.EraseInDisplay?
    ensures ParseCsi(Format(e)) == Some(e)
  {
    var final := if e.EraseInLine? then 'K' else 'J';
    assert Format(e) == Csi + Decimal(e.mode as nat) + [final];
    ParseSingleParam(e.mode as nat, final);
  }

  /**
   * Every cursor and erase command is rendered as a control sequence that
   * reads back as the same command.
   */
  lemma FormatParseRoundTrip(e: DocEditType)
    requires IsCsiCommand(e)
    ensures ParseCsi(Format(e)) == Some(e)
  {
    if e.CursorAbsolute? {
      ParseCursorAbsolute(e.row, e.col);
    } else if e.EraseInLine? || e.EraseInDisplay? {
      FormatParseErase(e);
    } else {
      FormatParseMove(e);
    }
  }

  /** Distinct cursor and erase commands render as distinct text. */
  lemma FormatInjective(e: DocEditType, f: DocEditType)
    requires IsCsiCommand(e) && IsCsiCommand(f)
    requires Format(e) == Format(f)
    ensures e == f
  {
    FormatParseRoundTrip(e);
    FormatParseRoundTrip(f);
  }

  /** Worked cases: cursor up three rows, and the cursor moved to row 12, column 5. */
  lemma FormatExamples()
    ensures Format(CursorUp(3)) == "\U{1b}[3A"
    ensures Format(CursorAbsolute(12, 5)) == "\U{1b}[12;5H"
    ensures Format(EraseInLine(2)) == "\U{1b}[2K"
  {
    assert Decimal(12) == Decimal(1) + [DigitChar(2)];
  }
}
