/** Decimal formatting of one code: the digit logic of `display_code`, the
    canonical decimal text that Rust's `{}` prints for a `u8`, and how the
    two differ. */
module Numerals {
  import opened Codes

  const ZERO: Byte := 0x30

  predicate IsDigit(b: Byte) { ZERO <= b <= ZERO + 9 }

  /** The digit bytes `display_code` writes for `code`, as written: a
      hundreds digit iff `code >= 100`, then what is left after the hundreds
      formatted as a number below 100, whose tens digit is written only when
      it is at least 10. */
  function Digits(code: Byte): (r: seq<Byte>)
    ensures |r| == (if code >= 100 then 1 else 0) + (if code % 100 >= 10 then 1 else 0) + 1
    ensures forall i :: 0 <= i < |r| ==> IsDigit(r[i])
    ensures code >= 100 ==> r[0] == ZERO + code / 100
  {
    if code >= 100 then [ZERO + code / 100] + Below100(code % 100) else Below100(code)
  }

  /** A number below 100 without a leading zero: one or two digits. */
  function Below100(r: Byte): (d: seq<Byte>)
    requires r < 100
    ensures |d| == if r >= 10 then 2 else 1
    ensures forall i :: 0 <= i < |d| ==> IsDigit(d[i])
  {
    if r >= 10 then [ZERO + r / 10, ZERO + r % 10] else [ZERO + r]
  }

  /** Canonical decimal digits of `n`, most significant first, with no
      leading zero. */
  function Decimal(n: nat): (r: seq<Byte>)
    ensures 1 <= |r|
    ensures forall i :: 0 <= i < |r| ==> IsDigit(r[i])
  {
    if n < 10 then [ZERO + n] else Decimal(n / 10) + [ZERO + n % 10]
  }

  /** The number a string of digit bytes denotes. */
  function Value(s: seq<Byte>): nat
    requires forall i :: 0 <= i < |s| ==> IsDigit(s[i])
  {
    if s == [] then 0
    else
      var last := s[|s| - 1];
      assert IsDigit(last);
      10 * Value(s[..|s| - 1]) + (last - ZERO)
  }

  /** Decimal is canonical: it denotes `n`, and it starts with a zero only
      when it is the single digit of 0. */
  lemma {:induction false} DecimalDenotes(n: nat)
    ensures Value(Decimal(n)) == n
    ensures Decimal(n)[0] == ZERO <==> n == 0
  {
    var d := Decimal(n);
    if n >= 10 {
      DecimalDenotes(n / 10);
      assert d[..|d| - 1] == Decimal(n / 10);
    }
  }

  lemma {:induction false} DecimalLength(n: nat)
    ensures |Decimal(n)| == (if n < 10 then 1 else if n < 100 then 2 else if n < 1000 then 3 else |Decimal(n / 1000)| + 3)
  {
    if n >= 10 {
      DecimalLength(n / 10);
      if n >= 1000 {
        assert n / 10 / 10 / 10 == n / 1000;
      }
    }
  }

  /** The codes whose hundreds digit is followed by a zero tens digit, which
      `display_code` does not write. */
  predicate DropsMiddleZero(code: Byte) { 100 <= code <= 109 || 200 <= code <= 209 }

  /** Canonical decimal digits of a byte, written out digit by digit: a
      hundreds digit for 100 and above, a tens digit for 10 and above. */
  function Canonical(code: Byte): (r: seq<Byte>)
    ensures |r| == if code < 10 then 1 else if code < 100 then 2 else 3
    ensures forall i :: 0 <= i < |r| ==> IsDigit(r[i])
  {
    if code < 10 then [ZERO + code]
    else if code < 100 then [ZERO + code / 10, ZERO + code % 10]
    else [ZERO + code / 100, ZERO + code % 100 / 10, ZERO + code % 100 % 10]
  }

  /** The digit-by-digit form is the canonical decimal of the byte. */
  lemma CanonicalIsDecimal(code: Byte)
    ensures Canonical(code) == Decimal(code)
  {
    if code >= 100 {
      assert code / 10 / 10 == code / 100;
      assert code / 10 % 10 == code % 100 / 10;
      assert code % 10 == code % 100 % 10;
      assert Decimal(code / 10) == [ZERO + code / 100, ZERO + code % 100 / 10];
    }
  }

  /** `display_code`'s digits agree with canonical decimal exactly for the
      codes outside 100-109 and 200-209. */
  lemma DigitsAgreeWithDecimal(code: Byte)
    ensures Digits(code) == Decimal(code) <==> !DropsMiddleZero(code)
    ensures |Decimal(code)| == |Digits(code)| + (if DropsMiddleZero(code) then 1 else 0)
  {
    CanonicalIsDecimal(code);
    if code >= 100 {
      if code % 100 < 10 {
        assert |Digits(code)| == 2 < |Decimal(code)|;
      }
    }
  }

  /** What the digits of a code in 100-109 or 200-209 denote instead: the
      code with its middle zero removed, 10-19 or 20-29. */
  lemma DroppedZeroMisreads(code: Byte)
    requires DropsMiddleZero(code)
    ensures |Digits(code)| == 2
    ensures Value(Digits(code)) == code / 100 * 10 + code % 10
    ensures Digits(code) == Digits(code / 100 * 10 + code % 10)
  {
    var d := Digits(code);
    assert d == [ZERO + code / 100, ZERO + code % 10];
    assert d[..1][..0] == [];
    assert Value(d[..1]) == code / 100;
  }

  /** `s` with `w` written over it from index `at` on. */
  function Splice(s: seq<Byte>, at: nat, w: seq<Byte>): (r: seq<Byte>)
    requires at + |w| <= |s|
    ensures |r| == |s|
  {
    s[..at] + w + s[at + |w|..]
  }

  /** A sequence that agrees with `w` on `[at, at + |w|)` and with `s`
      elsewhere is `s` spliced with `w`. */
  lemma SpliceAt(s: seq<Byte>, t: seq<Byte>, at: nat, w: seq<Byte>)
    requires |t| == |s| && at + |w| <= |s|
    requires forall k :: 0 <= k < |w| ==> t[at + k] == w[k]
    requires forall k :: 0 <= k < |s| && !(at <= k < at + |w|) ==> t[k] == s[k]
    ensures t == Splice(s, at, w)
  {
    forall k | 0 <= k < |s|
      ensures t[k] == Splice(s, at, w)[k]
    {
      if at <= k < at + |w| {
        assert t[at + (k - at)] == w[k - at];
      }
    }
  }

  /** `display_code` as written. It writes into the slice `buf[start..]`:
      nothing, returning 0, when fewer than 4 bytes remain; otherwise the
      digits and the suffix, returning how many bytes it wrote. */
  method DisplayCode(code: Byte, suffix: Byte, buf: array<Byte>, start: nat) returns (n: nat)
    requires start <= buf.Length
    modifies buf
    ensures buf.Length - start < 4 ==> n == 0 && buf[..] == old(buf[..])
    ensures buf.Length - start >= 4 ==>
      && n == |Digits(code)| + 1
      && 2 <= n <= 4
      && buf[..] == Splice(old(buf[..]), start, Digits(code) + [suffix])
  {
    if buf.Length - start < 4 {
      return 0;
    }
    var c: int := code;
    var i := 0;
    if c >= 100 {
      buf[start + i] := ZERO + c / 100;
      c := c % 100;
      i := i + 1;
    }
    if c >= 10 {
      buf[start + i] := ZERO + c / 10;
      c := c % 10;
      i := i + 1;
    }
    buf[start + i] := ZERO + c;
    i := i + 1;
    buf[start + i] := suffix;
    i := i + 1;
    n := i;
    SpliceAt(old(buf[..]), buf[..], start, Digits(code) + [suffix]);
  }
}
