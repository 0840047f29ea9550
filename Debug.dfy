/** The `Debug` formatting of `Print` and `Code`: the escape sequence shown
    as a quoted string, with the escape character spelled `\x1b` and every
    code in the canonical decimal Rust's `{}` prints for a `u8`. */
module Debug {
  import opened Codes
  import opened Numerals
  import opened Render

  /** What `debug` writes first: a quote, the four characters `\x1b`, and
      `[`. */
  const OPENING: string := "\"\\x1b["

  /** The character `debug` writes after code `i`. */
  function SuffixChar(codes: seq<Byte>, i: nat): char
  {
    if i + 1 == |codes| then 'm' else ';'
  }

  /** What `debug` writes for code `i`: its decimal and its suffix. */
  function DebugField(codes: seq<Byte>, i: nat): string
    requires i < |codes|
  {
    Text(Decimal(codes[i])) + [SuffixChar(codes, i)]
  }

  /** What the loop of `debug` has written after `k` codes: their fields,
      two to four characters a code. */
  function DebugFields(codes: seq<Byte>, k: nat): (r: string)
    requires k <= |codes|
    ensures 2 * k <= |r| <= 4 * k
  {
    if k == 0 then ""
    else
      CanonicalIsDecimal(codes[k - 1]);
      DebugFields(codes, k - 1) + DebugField(codes, k - 1)
  }

  /** `debug`: nothing for no codes, otherwise the opening, the fields and
      a closing quote. */
  function DebugText(codes: seq<Byte>): (r: string)
    ensures r == "" <==> |codes| == 0
    ensures |codes| > 0 ==> |r| > |OPENING| && r[..|OPENING|] == OPENING && r[|r| - 1] == '"'
  {
    if |codes| == 0 then "" else OPENING + DebugFields(codes, |codes|) + "\""
  }

  /** `Debug` for `Code`: the opening, the code in decimal, and `m"`. */
  function CodeDebug(c: Code): (r: string)
    ensures r == DebugText([c.byte])
  {
    assert DebugFields([c.byte], 1) == Text(Decimal(c.byte)) + "m";
    OPENING + Text(Decimal(c.byte)) + "m\""
  }

  /** The suffix byte and the suffix character are the same character. */
  lemma SuffixText(codes: seq<Byte>, i: nat)
    ensures Text([Suffix(codes, i)]) == [SuffixChar(codes, i)]
  {
  }

  /** No code is one of 100-109 or 200-209. */
  predicate NoDroppedZero(codes: seq<Byte>)
  {
    forall i :: 0 <= i < |codes| ==> !DropsMiddleZero(codes[i])
  }

  /** How many of the first `k` codes lose their middle zero. */
  function DropCount(codes: seq<Byte>, k: nat): nat
    requires k <= |codes|
  {
    if k == 0 then 0 else DropCount(codes, k - 1) + (if DropsMiddleZero(codes[k - 1]) then 1 else 0)
  }

  lemma {:induction false} DropCountZero(codes: seq<Byte>, k: nat)
    requires k <= |codes|
    ensures DropCount(codes, k) == 0 <==> forall i :: 0 <= i < k ==> !DropsMiddleZero(codes[i])
  {
    if k > 0 {
      DropCountZero(codes, k - 1);
    }
  }

  /** `debug` writes one more character than `display` for each code that
      loses its middle zero. */
  lemma {:induction false} DebugFieldsLength(codes: seq<Byte>, k: nat)
    requires k <= |codes|
    ensures |DebugFields(codes, k)| + 2 == |Written(codes, k)| + DropCount(codes, k)
  {
    if k > 0 {
      DebugFieldsLength(codes, k - 1);
      DigitsAgreeWithDecimal(codes[k - 1]);
    }
  }

  /** A code that keeps its middle zero has the same field in both. */
  lemma FieldText(codes: seq<Byte>, i: nat)
    requires i < |codes| && !DropsMiddleZero(codes[i])
    ensures IsAscii(Field(codes, i))
    ensures Text(Field(codes, i)) == DebugField(codes, i)
  {
    DigitsAgreeWithDecimal(codes[i]);
    TextAppend(Digits(codes[i]), [Suffix(codes, i)]);
    SuffixText(codes, i);
  }

  /** Appending a field's bytes appends its text. */
  lemma TextStep(w: seq<Byte>, f: seq<Byte>, h: string, d: string, x: string)
    requires IsAscii(w) && IsAscii(f)
    requires Text(w) == h + d && Text(f) == x
    ensures IsAscii(w + f) && Text(w + f) == h + (d + x)
  {
    TextAppend(w, f);
  }

  /** While no code loses its middle zero, what `display` has written after
      `k` codes, read as text, is the header followed by what `debug` writes
      for the same codes. */
  lemma {:induction false} WrittenAsText(codes: seq<Byte>, k: nat)
    requires k <= |codes|
    requires forall i :: 0 <= i < k ==> !DropsMiddleZero(codes[i])
    ensures WrittenText(codes, k) == Text([ESC, OPEN]) + DebugFields(codes, k)
  {
    if k > 0 {
      WrittenAsText(codes, k - 1);
      WrittenIsAscii(codes, k - 1);
      FieldText(codes, k - 1);
      TextStep(Written(codes, k - 1), Field(codes, k - 1), Text([ESC, OPEN]), DebugFields(codes, k - 1), DebugField(codes, k - 1));
    }
  }

  /** What `display` prints, quoted and with the escape character spelled
      out as `\x1b`. */
  function Quoted(codes: seq<Byte>): string
    requires |codes| > 0
  {
    "\"\\x1b" + RenderedText(codes)[1..] + "\""
  }

  lemma DebugWhenNoDrop(codes: seq<Byte>)
    requires |codes| > 0 && NoDroppedZero(codes)
    ensures DebugText(codes) == Quoted(codes)
  {
    var n := |codes|;
    var t := RenderedText(codes);
    WrittenAsText(codes, n);
    assert t[1..] == "[" + DebugFields(codes, n);
    assert Quoted(codes) == "\"\\x1b" + ("[" + DebugFields(codes, n)) + "\"";
  }

  lemma DebugWhenDrop(codes: seq<Byte>)
    requires |codes| > 0 && !NoDroppedZero(codes)
    ensures |DebugText(codes)| == |Quoted(codes)| + DropCount(codes, |codes|)
    ensures DropCount(codes, |codes|) > 0
  {
    DropCountZero(codes, |codes|);
    DebugFieldsLength(codes, |codes|);
  }

  /** `Debug` shows what `Display` prints, quoted, exactly when no code is
      one of 100-109 or 200-209: for those `Debug` prints the middle zero
      that `Display` drops. */
  lemma DebugShowsDisplay(codes: seq<Byte>)
    requires |codes| > 0
    ensures DebugText(codes) == Quoted(codes) <==> NoDroppedZero(codes)
  {
    if NoDroppedZero(codes) {
      DebugWhenNoDrop(codes);
    } else {
      DebugWhenDrop(codes);
    }
  }
}
