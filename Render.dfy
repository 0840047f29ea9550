/** The renderer `display`: an SGR control sequence `ESC [ p1;...;pn m`
    written into a fixed-size buffer, with overflow reported as `None`.
    Each code is formatted by `display_code` as written (`Numerals.Digits`),
    which drops the middle zero of 100-109 and 200-209. */
module Render {
  import opened Codes
  import opened Numerals

  const ESC: Byte := 0x1b
  const OPEN: Byte := 0x5b       // '['
  const SEMICOLON: Byte := 0x3b  // ';'
  const FINAL: Byte := 0x6d      // 'm'

  /** The byte written after code `i`: `m` after the last code, `;` after
      every other. */
  function Suffix(codes: seq<Byte>, i: nat): Byte
  {
    if i + 1 == |codes| then FINAL else SEMICOLON
  }

  /** What `display_code` writes for code `i`. */
  function Field(codes: seq<Byte>, i: nat): seq<Byte>
    requires i < |codes|
  {
    Digits(codes[i]) + [Suffix(codes, i)]
  }

  /** The buffer prefix `display` has written once it has formatted the
      first `k` codes: the header `ESC [` and their fields. */
  function Written(codes: seq<Byte>, k: nat): seq<Byte>
    requires k <= |codes|
  {
    if k == 0 then [ESC, OPEN] else Written(codes, k - 1) + Field(codes, k - 1)
  }

  /** The text `display` returns when it succeeds. */
  function Rendered(codes: seq<Byte>): seq<Byte>
  {
    Written(codes, |codes|)
  }

  /** `display_code` for code `i` finds at least 4 bytes left. */
  predicate RoomFor(len: nat, codes: seq<Byte>, i: nat)
    requires i < |codes|
  {
    |Written(codes, i)| + 4 <= len
  }

  /** `display` succeeds on a buffer of `len` bytes: the header test passes
      and no code faces fewer than 4 remaining bytes. */
  predicate Fits(len: nat, codes: seq<Byte>)
  {
    len >= 3 && forall i :: 0 <= i < |codes| ==> RoomFor(len, codes, i)
  }

  /** Code `k` is the first that faces fewer than 4 remaining bytes. */
  predicate FailsAt(len: nat, codes: seq<Byte>, k: nat)
  {
    k < |codes| && !RoomFor(len, codes, k) && forall j :: 0 <= j < k ==> RoomFor(len, codes, j)
  }

  /** `display`. The header goes to `buf[0..2)`; a cursor
      `total` then advances through the buffer one field at a time. On
      failure the header and the fields written so far stay in the buffer. */
  method Display(codes: seq<Byte>, buf: array<Byte>) returns (r: Option<seq<Byte>>)
    modifies buf
    ensures r.Some? <==> Fits(buf.Length, codes)
    ensures buf.Length < 3 ==> buf[..] == old(buf[..])
    ensures r.Some? ==>
      && |Rendered(codes)| <= buf.Length
      && r.value == Rendered(codes)
      && buf[..] == Rendered(codes) + old(buf[..])[|Rendered(codes)|..]
    ensures buf.Length >= 3 && r.None? ==> exists k ::
      && FailsAt(buf.Length, codes, k)
      && |Written(codes, k)| <= buf.Length
      && buf[..] == Written(codes, k) + old(buf[..])[|Written(codes, k)|..]
  {
    if buf.Length < 3 {
      return None;
    }
    ghost var orig := buf[..];
    buf[0] := ESC;
    buf[1] := OPEN;
    assert buf[..] == Written(codes, 0) + orig[2..];
    var total := 2;
    for i := 0 to |codes|
      invariant total == |Written(codes, i)| <= buf.Length
      invariant buf[..] == Written(codes, i) + orig[total..]
      invariant i > 0 ==> RoomFor(buf.Length, codes, i - 1)
    {
      var suffix := if i + 1 == |codes| then FINAL else SEMICOLON;
      ghost var before := buf[..];
      var skip := DisplayCode(codes[i], suffix, buf, total);
      if skip == 0 {
        FirstFailure(buf.Length, codes, i);
        return None;
      }
      assert RoomFor(buf.Length, codes, i);
      WriteStep(codes, i, orig, before, buf[..]);
      total := total + skip;
    }
    FitsIffLast(buf.Length, codes);
    // `buf.get(..total)` cannot fail: the cursor never passes the end.
    return Some(buf[..total]);
  }

  /** The first code that finds fewer than 4 bytes left is where `display`
      fails, and then the codes do not fit. */
  lemma FirstFailure(len: nat, codes: seq<Byte>, k: nat)
    requires k < |codes| && !RoomFor(len, codes, k)
    requires k > 0 ==> RoomFor(len, codes, k - 1)
    ensures FailsAt(len, codes, k) && !Fits(len, codes)
  {
    forall j | 0 <= j < k
      ensures RoomFor(len, codes, j)
    {
      WrittenGrows(codes, j, k - 1);
    }
  }

  /** One turn of the loop: `display_code` writing field `i` at the cursor
      extends the written prefix by that field. */
  lemma WriteStep(codes: seq<Byte>, i: nat, orig: seq<Byte>, before: seq<Byte>, after: seq<Byte>)
    requires i < |codes|
    requires |Written(codes, i)| + |Field(codes, i)| <= |orig|
    requires before == Written(codes, i) + orig[|Written(codes, i)|..]
    requires after == Splice(before, |Written(codes, i)|, Digits(codes[i]) + [Suffix(codes, i)])
    ensures |Written(codes, i + 1)| == |Written(codes, i)| + |Field(codes, i)|
    ensures after == Written(codes, i + 1) + orig[|Written(codes, i + 1)|..]
  {
    var w, f := Written(codes, i), Field(codes, i);
    SpliceAfter(w, orig[|w|..], f);
    assert orig[|w|..][|f|..] == orig[|w| + |f|..];
  }

  /** Writing `f` right after a prefix `w` extends the prefix. */
  lemma SpliceAfter(w: seq<Byte>, rest: seq<Byte>, f: seq<Byte>)
    requires |f| <= |rest|
    ensures Splice(w + rest, |w|, f) == (w + f) + rest[|f|..]
  {
    assert (w + rest)[..|w|] == w;
    assert (w + rest)[|w| + |f|..] == rest[|f|..];
  }

  /** Each field takes 2 to 4 bytes. */
  lemma {:induction false} WrittenLength(codes: seq<Byte>, k: nat)
    requires k <= |codes|
    ensures 2 + 2 * k <= |Written(codes, k)| <= 2 + 4 * k
  {
    if k > 0 {
      WrittenLength(codes, k - 1);
    }
  }

  /** If each of the first `k` codes has `w` digits, they take `(w + 1) k`
      bytes after the header. */
  lemma {:induction false} FieldWidths(codes: seq<Byte>, k: nat, w: nat)
    requires k <= |codes|
    requires forall i :: 0 <= i < k ==> |Digits(codes[i])| == w
    ensures |Written(codes, k)| == 2 + (w + 1) * k
  {
    if k > 0 {
      FieldWidths(codes, k - 1, w);
      assert |Field(codes, k - 1)| == w + 1;
      assert (w + 1) * k == (w + 1) * (k - 1) + (w + 1);
    }
  }

  /** Formatting more codes only extends what was written. */
  lemma {:induction false} WrittenGrows(codes: seq<Byte>, j: nat, k: nat)
    requires j <= k <= |codes|
    ensures |Written(codes, j)| + 2 * (k - j) <= |Written(codes, k)|
    ensures Written(codes, k)[..|Written(codes, j)|] == Written(codes, j)
  {
    if j < k {
      WrittenGrows(codes, j, k - 1);
      assert Written(codes, k) == Written(codes, k - 1) + Field(codes, k - 1);
    }
  }

  /** Only the last code decides: `display` succeeds iff the buffer has at
      least 3 bytes and, when there are codes, the last code finds 4. */
  lemma FitsIffLast(len: nat, codes: seq<Byte>)
    ensures Fits(len, codes) <==> len >= 3 && (|codes| == 0 || RoomFor(len, codes, |codes| - 1))
  {
    if len >= 3 && |codes| > 0 && RoomFor(len, codes, |codes| - 1) {
      forall i | 0 <= i < |codes|
        ensures RoomFor(len, codes, i)
      {
        WrittenGrows(codes, i, |codes| - 1);
      }
    }
  }

  /** The worst-case size `max(3, 2 + 4n)` always suffices. */
  lemma AlwaysFits(len: nat, codes: seq<Byte>)
    requires len >= 3 && len >= 2 + 4 * |codes|
    ensures Fits(len, codes)
  {
    if |codes| > 0 {
      WrittenLength(codes, |codes| - 1);
      FitsIffLast(len, codes);
    }
  }

  /** On success the whole text lies inside the buffer, so the final
      `get(..total)` never fails. */
  lemma FitsBounded(len: nat, codes: seq<Byte>)
    requires Fits(len, codes)
    ensures |Rendered(codes)| <= len
  {
    if |codes| > 0 {
      assert RoomFor(len, codes, |codes| - 1);
      assert Rendered(codes) == Written(codes, |codes| - 1) + Field(codes, |codes| - 1);
    }
  }

  /** The fit test is conservative: a buffer exactly as long as the text
      succeeds only when the last code is written with three digits. */
  lemma ExactBuffer(codes: seq<Byte>)
    requires |codes| > 0
    ensures Fits(|Rendered(codes)|, codes) <==> codes[|codes| - 1] >= 100 && !DropsMiddleZero(codes[|codes| - 1])
  {
    var n := |codes|;
    assert Rendered(codes) == Written(codes, n - 1) + Field(codes, n - 1);
    FitsIffLast(|Rendered(codes)|, codes);
  }

  /** Without the guard of `Print`'s `Display`, no codes render as the bare
      header. */
  lemma DisplayEmpty(len: nat)
    ensures Fits(len, []) <==> len >= 3
    ensures Rendered([]) == [ESC, OPEN]
  {
  }

  /** The bytes an SGR sequence is made of. */
  predicate IsSgrByte(b: Byte)
  {
    b == ESC || b == OPEN || IsDigit(b) || b == SEMICOLON || b == FINAL
  }

  /** Every byte `display` writes is ESC, `[`, a digit, `;` or `m`, so the
      text is ASCII and reading it as UTF-8 without validation is sound. */
  lemma {:induction false} WrittenIsAscii(codes: seq<Byte>, k: nat)
    requires k <= |codes|
    ensures forall i :: 0 <= i < |Written(codes, k)| ==> IsSgrByte(Written(codes, k)[i])
    ensures IsAscii(Written(codes, k))
  {
    if k > 0 {
      WrittenIsAscii(codes, k - 1);
      assert Written(codes, k) == Written(codes, k - 1) + Field(codes, k - 1);
    }
  }

  /** What `display` has written after `k` codes, as the text
      `str::from_utf8_unchecked` makes of it. */
  function WrittenText(codes: seq<Byte>, k: nat): string
    requires k <= |codes|
  {
    WrittenIsAscii(codes, k);
    Text(Written(codes, k))
  }

  /** The text `display` returns when it succeeds. */
  function RenderedText(codes: seq<Byte>): string
  {
    WrittenText(codes, |codes|)
  }

  /** The parameters of the first `k` codes separated by `;`: the
      `<param> (';' <param>)*` of the SGR wire format, built without the
      cursor or the suffix rule. */
  function Params(codes: seq<Byte>, k: nat): seq<Byte>
    requires 0 < k <= |codes|
  {
    if k == 1 then Digits(codes[0]) else Params(codes, k - 1) + [SEMICOLON] + Digits(codes[k - 1])
  }

  /** After `k` codes the prefix is the header, their parameters separated
      by `;`, and the suffix of code `k - 1`. */
  lemma {:induction false} WrittenParams(codes: seq<Byte>, k: nat)
    requires 0 < k <= |codes|
    ensures Written(codes, k) == [ESC, OPEN] + Params(codes, k) + [Suffix(codes, k - 1)]
  {
    var d := Digits(codes[k - 1]);
    assert Written(codes, k) == Written(codes, k - 1) + (d + [Suffix(codes, k - 1)]);
    if k > 1 {
      WrittenParams(codes, k - 1);
      var w, p, q, b := Written(codes, k - 1), Params(codes, k - 1), Params(codes, k), Suffix(codes, k - 1);
      assert w == [ESC, OPEN] + (p + [SEMICOLON]);
      assert q + [b] == (p + [SEMICOLON]) + (d + [b]);
      Regroup(Written(codes, k), w, [ESC, OPEN], p + [SEMICOLON], d + [b], q + [b]);
    } else {
      assert Written(codes, 0) == [ESC, OPEN];
      assert [ESC, OPEN] + (d + [Suffix(codes, 0)]) == [ESC, OPEN] + d + [Suffix(codes, 0)];
    }
  }

  /** On a non-empty list the text is `ESC [ p1;...;pn m`, the codes in input
      order. */
  lemma WireFormat(codes: seq<Byte>)
    requires |codes| > 0
    ensures Rendered(codes) == [ESC, OPEN] + Params(codes, |codes|) + [FINAL]
  {
    WrittenParams(codes, |codes|);
  }
}
