/** The crate's own examples and tests, stated on the model. */
module Examples {
  import opened Codes
  import opened Numerals
  import opened Render
  import opened Mode
  import opened Debug
  import opened Fmt

  /** `BOLD` displays as `ESC [1m` and `RED` as `ESC [31m`. */
  lemma SimpleCodes()
    ensures RenderedText([Catalog(Bold).byte]) == "\U{1b}[1m"
    ensures RenderedText([Catalog(Red).byte]) == "\U{1b}[31m"
  {
    assert Catalog(Red).byte == 31;
  }

  /** `mode!(BOLD; {style}; FG PAL 9; BG RGB 255, 0, 0)` with `style` set to
      `UNDERLINE` holds the codes 1, 4, 38, 5, 9, 48, 2, 255, 0, 0 ... */
  lemma ModeMacroCodes()
    ensures ModeOf([Named(Bold), Runtime(Catalog(Underline)), Indexed(Fg, Pal, 9), Triple(Bg, Rgb, 255, 0, 0)]).codes
      == [1, 4, 38, 5, 9, 48, 2, 255, 0, 0]
  {
    ModeMacroExpand();
  }

  lemma ModeMacroExpand()
    ensures Expand([Named(Bold), Runtime(Catalog(Underline)), Indexed(Fg, Pal, 9), Triple(Bg, Rgb, 255, 0, 0)])
      == [1, 4, 38, 5, 9, 48, 2, 255, 0, 0]
  {
    var a, b, c, d := Named(Bold), Runtime(Catalog(Underline)), Indexed(Fg, Pal, 9), Triple(Bg, Rgb, 255, 0, 0);
    ExpandCons(d, []);
    ExpandCons(c, [d]);
    ExpandCons(b, [c] + [d]);
    ExpandCons(a, [b] + ([c] + [d]));
    assert [a] + ([b] + ([c] + [d])) == [a, b, c, d];
    assert Expansion(a) == [1] && Expansion(b) == [4];
    assert Expansion(c) == [38, 5, 9] && Expansion(d) == [48, 2, 255, 0, 0];
    assert Expand([]) == [];
  }

  /** The bytes of `ESC [1;4;38;5;9;48;2;255;0;0m`. */
  const MODE_BYTES: seq<Byte> :=
    [0x1b, 0x5b, 49, 59, 52, 59, 51, 56, 59, 53, 59, 57, 59, 52, 56, 59, 50, 59, 50, 53, 53, 59, 48, 59, 48, 109]

  // The rendering of the mode example, three or four codes at a time.

  lemma ModeMacroWritten3()
    ensures Written([1, 4, 38, 5, 9, 48, 2, 255, 0, 0], 3) == MODE_BYTES[..9]
  {
    var codes: seq<Byte> := [1, 4, 38, 5, 9, 48, 2, 255, 0, 0];
    assert Written(codes, 1) == MODE_BYTES[..4];
    assert Written(codes, 2) == MODE_BYTES[..6];
  }

  lemma ModeMacroWritten6()
    ensures Written([1, 4, 38, 5, 9, 48, 2, 255, 0, 0], 6) == MODE_BYTES[..16]
  {
    var codes: seq<Byte> := [1, 4, 38, 5, 9, 48, 2, 255, 0, 0];
    ModeMacroWritten3();
    assert Written(codes, 4) == MODE_BYTES[..11];
    assert Written(codes, 5) == MODE_BYTES[..13];
  }

  lemma ModeMacroBytes()
    ensures Rendered([1, 4, 38, 5, 9, 48, 2, 255, 0, 0]) == MODE_BYTES
  {
    var codes: seq<Byte> := [1, 4, 38, 5, 9, 48, 2, 255, 0, 0];
    ModeMacroWritten6();
    assert Written(codes, 7) == MODE_BYTES[..18];
    assert Written(codes, 8) == MODE_BYTES[..22];
    assert Written(codes, 9) == MODE_BYTES[..24];
  }

  /** ... which fit the 64-byte buffer and display as
      `ESC [1;4;38;5;9;48;2;255;0;0m`. */
  lemma ModeMacroText()
    ensures Fits(PRINT_BUFFER, [1, 4, 38, 5, 9, 48, 2, 255, 0, 0])
    ensures RenderedText([1, 4, 38, 5, 9, 48, 2, 255, 0, 0]) == "\U{1b}[1;4;38;5;9;48;2;255;0;0m"
  {
    PrintCapacity([1, 4, 38, 5, 9, 48, 2, 255, 0, 0]);
    ModeMacroBytes();
    ModeBytesText();
  }

  lemma ModeBytesText()
    ensures Text(MODE_BYTES) == "\U{1b}[1;4;38;5;9;48;2;255;0;0m"
  {
  }

  /** `Debug` of `BOLD` is the quoted `\x1b[1m`. */
  lemma DebugBold()
    ensures CodeDebug(Catalog(Bold)) == "\"\\x1b[1m\""
  {
  }

  /** As written, `display_code` renders `BRIGHT_BLACK_BG` (100) as `10`, the
      digits of a different code. */
  lemma BrightBlackBgAsWritten()
    ensures Text(Digits(Catalog(BrightBlackBg).byte)) == "10"
    ensures Digits(Catalog(BrightBlackBg).byte) == Digits(10)
  {
    DroppedZeroMisreads(100);
  }

  /** So `BRIGHT_BLACK_BG` displays as `ESC [10m`, the same bytes as code 10,
      while its `Debug` shows the quoted `\x1b[100m`. */
  lemma BrightBlackBgDisplays()
    ensures RenderedText([Catalog(BrightBlackBg).byte]) == "\U{1b}[10m"
    ensures Rendered([Catalog(BrightBlackBg).byte]) == Rendered([10])
    ensures CodeDebug(Catalog(BrightBlackBg)) == "\"\\x1b[100m\""
  {
    BrightBlackBgAsWritten();
    assert Decimal(100) == [ZERO + 1] + [ZERO, ZERO];
  }

  /** `mode!(UNDERLINE; FG RGB 243, 159, 24; BG PAL 28)` holds the codes
      4, 38, 2, 243, 159, 24, 48, 5, 28. */
  lemma SunsetCodes()
    ensures ModeOf([Named(Underline), Triple(Fg, Rgb, 243, 159, 24), Indexed(Bg, Pal, 28)]).codes
      == [4, 38, 2, 243, 159, 24, 48, 5, 28]
  {
    SunsetExpand();
  }

  lemma SunsetExpand()
    ensures Expand([Named(Underline), Triple(Fg, Rgb, 243, 159, 24), Indexed(Bg, Pal, 28)])
      == [4, 38, 2, 243, 159, 24, 48, 5, 28]
  {
    var a, b, c := Named(Underline), Triple(Fg, Rgb, 243, 159, 24), Indexed(Bg, Pal, 28);
    ExpandCons(c, []);
    ExpandCons(b, [c]);
    ExpandCons(a, [b] + [c]);
    assert [a] + ([b] + [c]) == [a, b, c];
    assert Expansion(a) == [4] && Expansion(b) == [38, 2, 243, 159, 24] && Expansion(c) == [48, 5, 28];
    assert Expand([]) == [];
  }

  /** Because of the dropped zero, `display` does not always tell the order
      of its codes apart: `BRIGHT_BLACK_BG` then code 10, and the reverse,
      both display as `ESC [10;10m` ... */
  lemma ReorderedAlike()
    ensures Rendered([100, 10]) == Rendered([10, 100])
    ensures RenderedText([100, 10]) == "\U{1b}[10;10m"
  {
    DroppedZeroMisreads(100);
    assert Written([100, 10], 1) == Written([10, 100], 1);
  }

  /** ... while `Debug` shows `\x1b[100;10m` ... */
  lemma ReorderedDebugFirst()
    ensures DebugText([100, 10]) == "\"\\x1b[100;10m\""
  {
    CanonicalIsDecimal(100);
    CanonicalIsDecimal(10);
    assert Text(Decimal(100)) == "100";
    assert Text(Decimal(10)) == "10";
    assert DebugFields([100, 10], 1) == "100;";
  }

  /** ... and `\x1b[10;100m`. */
  lemma ReorderedDebugSecond()
    ensures DebugText([10, 100]) == "\"\\x1b[10;100m\""
  {
    CanonicalIsDecimal(100);
    CanonicalIsDecimal(10);
    assert Text(Decimal(100)) == "100";
    assert Text(Decimal(10)) == "10";
    assert DebugFields([10, 100], 1) == "10;";
  }
}
