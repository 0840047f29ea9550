/** The `Display` and `Debug` implementations of `Code` and `Print`: each
    renders into a stack buffer of fixed size and hands the text to the
    formatter, or reports `fmt::Error` (`None` here) when `display` fails. */
module Fmt {
  import opened Codes
  import opened Numerals
  import opened Render
  import opened Mode
  import opened Debug

  /** The stack buffer `Print`'s `Display` renders into. */
  const PRINT_BUFFER: nat := 64

  /** The stack buffer `Code`'s `Display` renders into. */
  const CODE_BUFFER: nat := 8

  /** `Display` for `Code`: the one code rendered into an 8-byte buffer.
      It never fails, since one field needs at most 6 bytes. */
  method CodeDisplay(c: Code) returns (r: Option<string>)
    ensures r == Some(RenderedText([c.byte]))
  {
    var buf := new Byte[CODE_BUFFER](_ => 0);
    AlwaysFits(CODE_BUFFER, [c.byte]);
    var s := Display([c.byte], buf);
    r := None;
    if s.Some? {
      // The bytes are ASCII, so reading them as UTF-8 without validation
      // keeps them as they are.
      WrittenIsAscii([c.byte], 1);
      r := Some(Text(s.value));
    }
  }

  /** `Display` for `Print`: nothing for no codes; otherwise the codes
      rendered into a 64-byte buffer, which fails exactly when `display`
      runs out of room. */
  method PrintDisplay(p: Print) returns (r: Option<string>)
    ensures |p.codes| == 0 ==> r == Some("")
    ensures |p.codes| > 0 ==> (r.Some? <==> Fits(PRINT_BUFFER, p.codes))
    ensures |p.codes| > 0 && r.Some? ==> r.value == RenderedText(p.codes)
  {
    if |p.codes| > 0 {
      var buf := new Byte[PRINT_BUFFER](_ => 0);
      var s := Display(p.codes, buf);
      r := None;
      if s.Some? {
        WrittenIsAscii(p.codes, |p.codes|);
        r := Some(Text(s.value));
      }
    } else {
      r := Some("");
    }
  }

  /** `Debug` for `Print`: `debug` of its codes. It shows what `Display`
      prints, quoted and with the escape spelled out, exactly when no code
      loses its middle zero. */
  function PrintDebug(p: Print): (r: string)
    ensures r == "" <==> |p.codes| == 0
    ensures |p.codes| > 0 ==>
      (r == Quoted(p.codes) <==> NoDroppedZero(p.codes))
  {
    if |p.codes| > 0 then DebugShowsDisplay(p.codes); DebugText(p.codes) else DebugText(p.codes)
  }

  /** How many codes the 64-byte buffer holds: any 15 codes fit, and no 31
      codes do, whatever their values. */
  lemma PrintCapacity(codes: seq<Byte>)
    ensures |codes| <= 15 ==> Fits(PRINT_BUFFER, codes)
    ensures |codes| > 30 ==> !Fits(PRINT_BUFFER, codes)
  {
    if |codes| <= 15 {
      AlwaysFits(PRINT_BUFFER, codes);
    }
    if |codes| > 30 {
      WrittenLength(codes, |codes| - 1);
      FitsIffLast(PRINT_BUFFER, codes);
    }
  }

  /** Sixteen three-digit codes already overflow the buffer, while sixteen
      one-digit codes fit. */
  lemma PrintCapacityTight()
    ensures !Fits(PRINT_BUFFER, seq(16, _ => 255))
    ensures Fits(PRINT_BUFFER, seq(16, _ => 1))
  {
    var big: seq<Byte> := seq(16, _ => 255);
    var small: seq<Byte> := seq(16, _ => 1);
    assert forall i :: 0 <= i < 15 ==> |Digits(big[i])| == 3;
    assert forall i :: 0 <= i < 15 ==> |Digits(small[i])| == 1;
    FieldWidths(big, 15, 3);
    FieldWidths(small, 15, 1);
    FitsIffLast(PRINT_BUFFER, big);
    FitsIffLast(PRINT_BUFFER, small);
  }
}
