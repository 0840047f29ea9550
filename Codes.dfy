/** The SGR parameter type, the named code catalog and the extended-color
    selectors of ansi-gfx. */
module Codes {

  /** A Rust `u8`. */
  type Byte = b: int | 0 <= b < 256

  datatype Option<T> = None | Some(value: T)

  /** One SGR parameter: `Code { __byte }`. */
  datatype Code = Code(byte: Byte)

  /** The names accepted by `mode!` and re-exported at the crate root. */
  datatype CodeName =
    | Bold | Dim | Italic | Underline | Blink | Inverse | Hidden | Strike
    | Reset | ResetWeight | ResetItalic | ResetUnderline | ResetBlink
    | ResetInverse | ResetHidden | ResetStrike
    | Black | Red | Green | Yellow | Blue | Magenta | Cyan | White | Default
    | BlackBg | RedBg | GreenBg | YellowBg | BlueBg | MagentaBg | CyanBg
    | WhiteBg | DefaultBg
    | BrightBlack | BrightRed | BrightGreen | BrightYellow | BrightBlue
    | BrightMagenta | BrightCyan | BrightWhite
    | BrightBlackBg | BrightRedBg | BrightGreenBg | BrightYellowBg
    | BrightBlueBg | BrightMagentaBg | BrightCyanBg | BrightWhiteBg
  {
    /** The families the catalog documents. */
    predicate IsAttribute() { Bold? || Dim? || Italic? || Underline? || Blink? || Inverse? || Hidden? || Strike? }
    predicate IsReset() {
      Reset? || ResetWeight? || ResetItalic? || ResetUnderline? || ResetBlink? ||
      ResetInverse? || ResetHidden? || ResetStrike?
    }
    predicate IsForeground() { Black? || Red? || Green? || Yellow? || Blue? || Magenta? || Cyan? || White? || Default? }
    predicate IsBackground() {
      BlackBg? || RedBg? || GreenBg? || YellowBg? || BlueBg? || MagentaBg? ||
      CyanBg? || WhiteBg? || DefaultBg?
    }
    predicate IsBrightForeground() {
      BrightBlack? || BrightRed? || BrightGreen? || BrightYellow? ||
      BrightBlue? || BrightMagenta? || BrightCyan? || BrightWhite?
    }
    predicate IsBrightBackground() {
      BrightBlackBg? || BrightRedBg? || BrightGreenBg? || BrightYellowBg? ||
      BrightBlueBg? || BrightMagentaBg? || BrightCyanBg? || BrightWhiteBg?
    }
  }

  /** The numeric value of each named constant of `codes`; `NameOf` finds
      the name again from the value. */
  function Catalog(n: CodeName): (c: Code)
    ensures NameOf(c.byte) == Some(n)
  {
    match n
    case Bold => Code(1)
    case Dim => Code(2)
    case Italic => Code(3)
    case Underline => Code(4)
    case Blink => Code(5)
    case Inverse => Code(7)
    case Hidden => Code(8)
    case Strike => Code(9)
    case Reset => Code(0)
    case ResetWeight => Code(22)
    case ResetItalic => Code(23)
    case ResetUnderline => Code(24)
    case ResetBlink => Code(25)
    case ResetInverse => Code(27)
    case ResetHidden => Code(28)
    case ResetStrike => Code(29)
    case Black => Code(30)
    case Red => Code(31)
    case Green => Code(32)
    case Yellow => Code(33)
    case Blue => Code(34)
    case Magenta => Code(35)
    case Cyan => Code(36)
    case White => Code(37)
    case Default => Code(39)
    case BlackBg => Code(40)
    case RedBg => Code(41)
    case GreenBg => Code(42)
    case YellowBg => Code(43)
    case BlueBg => Code(44)
    case MagentaBg => Code(45)
    case CyanBg => Code(46)
    case WhiteBg => Code(47)
    case DefaultBg => Code(49)
    case BrightBlack => Code(90)
    case BrightRed => Code(91)
    case BrightGreen => Code(92)
    case BrightYellow => Code(93)
    case BrightBlue => Code(94)
    case BrightMagenta => Code(95)
    case BrightCyan => Code(96)
    case BrightWhite => Code(97)
    case BrightBlackBg => Code(100)
    case BrightRedBg => Code(101)
    case BrightGreenBg => Code(102)
    case BrightYellowBg => Code(103)
    case BrightBlueBg => Code(104)
    case BrightMagentaBg => Code(105)
    case BrightCyanBg => Code(106)
    case BrightWhiteBg => Code(107)
  }

  /** The catalog read backwards: the name whose value is `b`, if any. */
  function NameOf(b: Byte): Option<CodeName>
  {
    if b < 10 then
      match b
      case 0 => Some(Reset)
      case 1 => Some(Bold)
      case 2 => Some(Dim)
      case 3 => Some(Italic)
      case 4 => Some(Underline)
      case 5 => Some(Blink)
      case 7 => Some(Inverse)
      case 8 => Some(Hidden)
      case 9 => Some(Strike)
      case _ => None
    else if 20 <= b < 30 then
      match b
      case 22 => Some(ResetWeight)
      case 23 => Some(ResetItalic)
      case 24 => Some(ResetUnderline)
      case 25 => Some(ResetBlink)
      case 27 => Some(ResetInverse)
      case 28 => Some(ResetHidden)
      case 29 => Some(ResetStrike)
      case _ => None
    else if 30 <= b < 40 then
      match b
      case 30 => Some(Black)
      case 31 => Some(Red)
      case 32 => Some(Green)
      case 33 => Some(Yellow)
      case 34 => Some(Blue)
      case 35 => Some(Magenta)
      case 36 => Some(Cyan)
      case 37 => Some(White)
      case 39 => Some(Default)
      case _ => None
    else if 40 <= b < 50 then
      match b
      case 40 => Some(BlackBg)
      case 41 => Some(RedBg)
      case 42 => Some(GreenBg)
      case 43 => Some(YellowBg)
      case 44 => Some(BlueBg)
      case 45 => Some(MagentaBg)
      case 46 => Some(CyanBg)
      case 47 => Some(WhiteBg)
      case 49 => Some(DefaultBg)
      case _ => None
    else if 90 <= b < 98 then
      match b
      case 90 => Some(BrightBlack)
      case 91 => Some(BrightRed)
      case 92 => Some(BrightGreen)
      case 93 => Some(BrightYellow)
      case 94 => Some(BrightBlue)
      case 95 => Some(BrightMagenta)
      case 96 => Some(BrightCyan)
      case 97 => Some(BrightWhite)
      case _ => None
    else if 100 <= b < 108 then
      match b
      case 100 => Some(BrightBlackBg)
      case 101 => Some(BrightRedBg)
      case 102 => Some(BrightGreenBg)
      case 103 => Some(BrightYellowBg)
      case 104 => Some(BrightBlueBg)
      case 105 => Some(BrightMagentaBg)
      case 106 => Some(BrightCyanBg)
      case 107 => Some(BrightWhiteBg)
      case _ => None
    else None
  }

  // Every value lies in the range its family documents, and `NameOf`
  // gives the name back.

  lemma CatalogAttributes(n: CodeName)
    requires n.IsAttribute()
    ensures 1 <= Catalog(n).byte <= 9 && Catalog(n).byte != 6
    ensures NameOf(Catalog(n).byte) == Some(n)
  {
    match n
    case Bold =>
    case Dim =>
    case Italic =>
    case Underline =>
    case Blink =>
    case Inverse =>
    case Hidden =>
    case Strike =>
  }

  lemma CatalogResets(n: CodeName)
    requires n.IsReset()
    ensures Catalog(n).byte == 0 || (22 <= Catalog(n).byte <= 29 && Catalog(n).byte != 26)
    ensures NameOf(Catalog(n).byte) == Some(n)
  {
    match n
    case Reset =>
    case ResetWeight =>
    case ResetItalic =>
    case ResetUnderline =>
    case ResetBlink =>
    case ResetInverse =>
    case ResetHidden =>
    case ResetStrike =>
  }

  lemma CatalogForegrounds(n: CodeName)
    requires n.IsForeground()
    ensures 30 <= Catalog(n).byte <= 39 && Catalog(n).byte != 38
    ensures NameOf(Catalog(n).byte) == Some(n)
  {
    match n
    case Black =>
    case Red =>
    case Green =>
    case Yellow =>
    case Blue =>
    case Magenta =>
    case Cyan =>
    case White =>
    case Default =>
  }

  lemma CatalogBackgrounds(n: CodeName)
    requires n.IsBackground()
    ensures 40 <= Catalog(n).byte <= 49 && Catalog(n).byte != 48
    ensures NameOf(Catalog(n).byte) == Some(n)
  {
    match n
    case BlackBg =>
    case RedBg =>
    case GreenBg =>
    case YellowBg =>
    case BlueBg =>
    case MagentaBg =>
    case CyanBg =>
    case WhiteBg =>
    case DefaultBg =>
  }

  lemma CatalogBrightForegrounds(n: CodeName)
    requires n.IsBrightForeground()
    ensures 90 <= Catalog(n).byte <= 97
    ensures NameOf(Catalog(n).byte) == Some(n)
  {
    match n
    case BrightBlack =>
    case BrightRed =>
    case BrightGreen =>
    case BrightYellow =>
    case BrightBlue =>
    case BrightMagenta =>
    case BrightCyan =>
    case BrightWhite =>
  }

  lemma CatalogBrightBackgrounds(n: CodeName)
    requires n.IsBrightBackground()
    ensures 100 <= Catalog(n).byte <= 107
    ensures NameOf(Catalog(n).byte) == Some(n)
  {
    match n
    case BrightBlackBg =>
    case BrightRedBg =>
    case BrightGreenBg =>
    case BrightYellowBg =>
    case BrightBlueBg =>
    case BrightMagentaBg =>
    case BrightCyanBg =>
    case BrightWhiteBg =>
  }

  /** Every named constant has a value of its own. */
  lemma CatalogDistinct(m: CodeName, n: CodeName)
    requires Catalog(m) == Catalog(n)
    ensures m == n
  {
    assert NameOf(Catalog(m).byte) == Some(m);
  }

  /** The ground selector of an extended color (`__FG_or_BG`). */
  datatype Ground = Fg | Bg

  /** The color space selector of an extended color (`__RGB_or_PAL`). */
  datatype Space = Pal | Rgb

  function GroundCode(g: Ground): (c: Code)
    ensures c.byte == 38 <==> g == Fg
    ensures c.byte == 48 <==> g == Bg
  {
    match g
    case Fg => Code(38)
    case Bg => Code(48)
  }

  function SpaceCode(s: Space): (c: Code)
    ensures c.byte == 5 <==> s == Pal
    ensures c.byte == 2 <==> s == Rgb
  {
    match s
    case Pal => Code(5)
    case Rgb => Code(2)
  }

  /** Every byte is below 128. */
  predicate IsAscii(s: seq<Byte>)
  {
    forall i :: 0 <= i < |s| ==> s[i] < 128
  }

  /** Bytes read as text, one character per byte: the view that
      `str::from_utf8_unchecked` takes of a buffer. It is only defined for
      ASCII bytes, the obligation that unchecked call leaves to its caller. */
  function Text(s: seq<Byte>): (t: string)
    requires IsAscii(s)
    ensures |t| == |s|
    ensures forall i :: 0 <= i < |s| ==> t[i] as int == s[i]
  {
    seq(|s|, i requires 0 <= i < |s| => s[i] as char)
  }

  /** The UTF-8 bytes of an ASCII string (`str::as_bytes`). */
  function Bytes(t: string): (s: seq<Byte>)
    requires forall i :: 0 <= i < |t| ==> t[i] < 128 as char
    ensures |s| == |t|
  {
    seq(|t|, i requires 0 <= i < |t| => t[i] as int)
  }

  /** Reading ASCII bytes as text loses nothing: the text's bytes are the
      buffer's bytes, and its characters are ASCII. */
  lemma TextRoundTrip(s: seq<Byte>)
    requires IsAscii(s)
    ensures forall i :: 0 <= i < |Text(s)| ==> Text(s)[i] < 128 as char
    ensures Bytes(Text(s)) == s
  {
    var t := Text(s);
    assert forall i :: 0 <= i < |t| ==> t[i] as int == s[i] < 128;
  }

  lemma {:induction false} TextAppend(a: seq<Byte>, b: seq<Byte>)
    requires IsAscii(a) && IsAscii(b)
    ensures IsAscii(a + b)
    ensures Text(a + b) == Text(a) + Text(b)
  {
    assert forall i :: 0 <= i < |a + b| ==> (a + b)[i] < 128;
    assert forall i :: 0 <= i < |a + b| ==> Text(a + b)[i] == (Text(a) + Text(b))[i];
  }

  /** Appending `f` to both sides of `w == h + d`. */
  lemma Regroup<T>(t: seq<T>, w: seq<T>, h: seq<T>, d: seq<T>, f: seq<T>, e: seq<T>)
    requires w == h + d && e == d + f && t == w + f
    ensures t == h + e
  {
  }
}
