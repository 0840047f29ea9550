# ansi-gfx in Dafny

A model of the Rust crate `ansi-gfx` (`src/lib.rs`), a small no-allocation
library that builds ANSI SGR ("select graphic rendition") escape sequences,
`ESC [ <code> ; <code> ; ... m`, and renders them into fixed-size stack
buffers.

The modules follow the crate's structure:

- `Codes`: a `Code` is one byte. The module holds the 50 named codes of
  `codes` (attributes, resets, basic, default and bright colours) with their
  inverse lookup, and the selectors of extended colours: `FG`/`BG` (38/48)
  and `PAL`/`RGB` (5/2). It also defines `Text`, which reads ASCII bytes as a
  string.
- `Mode`: the `mode!`/`__mode!` macros, as a function over already-parsed
  arguments (a name, a runtime `{code}`, a palette colour or an RGB colour).
  It also holds `Print` and `Print::erase`.
- `Numerals`: `display_code`, an imperative method that writes one code's
  digits and suffix into an `array` at an offset. It is specified by
  `Digits`, which is exactly the digit logic of the source. `Decimal` is
  the canonical decimal numeral that Rust's `{}` prints for a `u8`.
- `Render`: `display`, an imperative method with the loop of the source. It
  is proved against `Written`/`Rendered`, which give the bytes written after
  each code, and `Fits`, which says when the buffer is too small. The module
  also has lemmas on the layout, the buffer size and the wire format.
- `Debug`: `debug` and `Code`'s `Debug`, as functions on strings. They are
  related to `display` by `DebugShowsDisplay`.
- `Fmt`: the `Display` impls of `Code` (an 8-byte buffer) and `Print` (a
  64-byte buffer) as methods that allocate the buffer, plus `Print`'s `Debug`.
- `Examples`: the crate's tests and documented examples, stated on the model.

### Where the code and its description differ

The model follows the code.

- `display_code` tests `code >= 10` only after it has taken away the hundreds.
  So 100-109 and 200-209 lose their middle zero: 100 is written `10` and 205
  is written `25`. The affected codes include all of the catalog's bright
  backgrounds. `Numerals.DigitsAgreeWithDecimal` states exactly when the
  digits are canonical. `Debug` prints canonical decimals, so it shows what
  `Display` prints exactly when no code is in those ranges
  (`Debug.DebugShowsDisplay`).
- `display_code` asks for 4 free bytes whatever the code. A buffer exactly as
  long as the output therefore succeeds only when the last code is written
  with three digits (`Render.ExactBuffer`).
- `display` on an empty list writes `ESC [` and succeeds. Only `Print`'s
  `Display` prints nothing for an empty list, because it does not call
  `display` then (`Render.DisplayEmpty`, `Fmt.PrintDisplay`).
- The codes are written in input order (`Render.WireFormat`), yet because of
  the dropped zero the output does not always determine that order:
  `[100, 10]` and `[10, 100]` both display as `ESC [10;10m`, while `Debug`
  tells them apart (`Examples.ReorderedAlike`, `Examples.ReorderedDebugFirst`,
  `Examples.ReorderedDebugSecond`).

## Model

| member | source | states |
|---|---|---|
| Codes.CatalogAttributes | src/lib.rs:194-209 | the eight attributes are codes 1-9 other than 6, and each is found again by its code |
| Codes.CatalogResets | src/lib.rs:211-226 | the resets are 0 and 22-29 other than 26, and each is found again by its code |
| Codes.CatalogForegrounds | src/lib.rs:228-245 | the basic and default foregrounds are 30-39 other than 38, and each is found again by its code |
| Codes.CatalogBackgrounds | src/lib.rs:247-264 | the basic and default backgrounds are 40-49 other than 48, and each is found again by its code |
| Codes.CatalogBrightForegrounds | src/lib.rs:266-281 | the bright foregrounds are 90-97, and each is found again by its code |
| Codes.CatalogBrightBackgrounds | src/lib.rs:283-298 | the bright backgrounds are 100-107, and each is found again by its code |
| Codes.Catalog | src/lib.rs:191-299 | each named constant's value; looking the value up again gives back that name |
| Codes.CatalogDistinct | src/lib.rs:191-299 | no two names share a code |
| Codes.GroundCode | src/lib.rs:168-175 | `FG` is 38 and `BG` is 48, and each value belongs to only one of them |
| Codes.SpaceCode | src/lib.rs:179-186 | `PAL` is 5 and `RGB` is 2, and each value belongs to only one of them |
| Codes.Text | src/lib.rs:407 | `from_utf8_unchecked` is only applied to ASCII bytes, the obligation the unchecked call leaves to its caller; the text has one character per byte, of the same value |
| Codes.TextRoundTrip | src/lib.rs:407 | the text read from ASCII bytes is ASCII, and its bytes are the buffer's bytes |
| Mode.Expansion | src/lib.rs:84-150 | a name or a runtime code gives its one byte; a palette colour gives the selectors and the index; an RGB colour gives the selectors and the three channels; the selector bytes are 38/48 and 5/2 exactly as the words say |
| Mode.Expand | src/lib.rs:84-150 | n arguments expand to between n and 5n codes |
| Mode.ExpandCons | src/lib.rs:84-150 | the first argument's bytes come before those of the rest |
| Mode.Accumulate | src/lib.rs:83-155 | each `__mode!` step only appends to the accumulator: the result is the accumulator followed by the expansions of the remaining arguments, in order |
| Mode.ModeOf | src/lib.rs:75-79 | `mode!` holds the expansions of its arguments, in order |
| Mode.ModeConcat | src/lib.rs:75-79 | `mode!` of two argument lists joined is the two results' codes joined |
| Mode.ExpandConcat | src/lib.rs:83-150 | expansion distributes over joining argument lists |
| Mode.SingleCodes | src/lib.rs:124-150 | names and runtime codes give exactly one code each, in place |
| Mode.Erase | src/lib.rs:327-329 | `erase` keeps the codes |
| Numerals.Digits | src/lib.rs:369-380 | the digit count is 1, plus one if the code is at least 100, plus one if its last two digits are at least 10; all are ASCII digits, the first being the hundreds when present |
| Numerals.Below100 | src/lib.rs:374-379 | below 100, one digit under ten and two from ten on |
| Numerals.Decimal | src/lib.rs:313 | Rust's decimal of a `u8` is non-empty and all ASCII digits |
| Numerals.DecimalDenotes | src/lib.rs:355 | the decimal numeral denotes the number and has a leading zero only for 0 |
| Numerals.DecimalLength | src/lib.rs:355 | the length of the decimal numeral by magnitude |
| Numerals.Canonical | src/lib.rs:355 | a byte's decimal has one, two or three digits by magnitude |
| Numerals.CanonicalIsDecimal | src/lib.rs:355 | the closed form of a byte's decimal is the recursive one |
| Numerals.DigitsAgreeWithDecimal | src/lib.rs:369-380 | `display_code`'s digits are the canonical decimal exactly when the code is not in 100-109 or 200-209; otherwise they are one digit shorter |
| Numerals.DroppedZeroMisreads | src/lib.rs:369-380 | for 100-109 and 200-209 the two digits written read as a different number, and are the digits of that number |
| Numerals.Splice | src/lib.rs:370-382 | overwriting part of a buffer keeps its length |
| Numerals.DisplayCode | src/lib.rs:363-384 | with fewer than 4 free bytes, returns 0 and leaves the buffer alone; otherwise writes the digits and the suffix at the offset, changes nothing else, and returns their count, 2 to 4 |
| Render.Display | src/lib.rs:387-408 | succeeds exactly when the codes fit; with a buffer under 3 bytes it writes nothing; on success it returns the rendered bytes, which are also the buffer's prefix before its old tail; on failure with a buffer of 3 or more it names the first code that found fewer than 4 free bytes, with everything before it written |
| Render.FirstFailure | src/lib.rs:396-401 | the first code without 4 free bytes makes the whole rendering fail |
| Render.WriteStep | src/lib.rs:396-404 | one loop step extends what has been written by that code's field and keeps the rest of the buffer |
| Render.WrittenLength | src/lib.rs:396-404 | after k codes, between 2 + 2k and 2 + 4k bytes have been written |
| Render.FieldWidths | src/lib.rs:396-404 | when every code has w digits, k codes take 2 + (w + 1)k bytes |
| Render.WrittenGrows | src/lib.rs:396-404 | what is written only grows: each code adds at least 2 bytes and keeps the earlier bytes |
| Render.FitsIffLast | src/lib.rs:388-404 | the codes fit exactly when the buffer has 3 bytes and the last code still finds 4 free bytes |
| Render.AlwaysFits | src/lib.rs:388-401 | a buffer of at least 3 and at least 2 + 4n bytes always holds n codes |
| Render.FitsBounded | src/lib.rs:406 | when the codes fit, the rendered bytes are no longer than the buffer, so the final bound check never fails |
| Render.ExactBuffer | src/lib.rs:364-365 | a buffer exactly as long as the output holds it only when the last code is written with three digits |
| Render.DisplayEmpty | src/lib.rs:388-393 | with no codes, `display` writes `ESC [` and succeeds for any buffer of 3 bytes or more |
| Render.WrittenIsAscii | src/lib.rs:406-407 | every byte written is ESC, `[`, a digit, `;` or `m`, so the buffer is ASCII and the unchecked UTF-8 read is sound |
| Render.WrittenParams | src/lib.rs:396-404 | after k codes the buffer holds the header, the parameters separated by `;`, and the k-th suffix |
| Render.WireFormat | src/lib.rs:387-408 | the rendered bytes are `ESC [`, the parameters separated by `;`, and `m` |
| Debug.DebugText | src/lib.rs:350-360 | nothing for no codes; otherwise the quoted `\x1b[` opening and a closing quote |
| Debug.CodeDebug | src/lib.rs:311-315 | `Code`'s `Debug` is `debug` of the one code |
| Debug.SuffixText | src/lib.rs:354 | the suffix byte and the suffix character agree |
| Debug.DebugFields | src/lib.rs:353-356 | the loop of `debug` writes two to four characters a code |
| Debug.FieldText | src/lib.rs:355 | a code that keeps its middle zero has the same field, read as text, in `display` and in `debug` |
| Debug.DropCountZero | src/lib.rs:369-380 | no code loses its middle zero exactly when none of them is counted |
| Debug.DebugFieldsLength | src/lib.rs:350-360 | `debug` writes one character more than `display` for each code that loses its middle zero |
| Debug.WrittenAsText | src/lib.rs:350-360 | while no code loses its middle zero, what `display` wrote after k codes is its header followed by what `debug` writes for them |
| Debug.DebugWhenNoDrop | src/lib.rs:350-360 | when no code loses its middle zero, `debug` is `display`'s text quoted, with ESC spelled `\x1b` |
| Debug.DebugWhenDrop | src/lib.rs:350-360 | when some code loses its middle zero, `debug` is longer than the quoted display by the number of such codes |
| Debug.DebugShowsDisplay | src/lib.rs:350-360 | `debug` is `display`'s text quoted, with ESC spelled `\x1b`, exactly when no code is in 100-109 or 200-209 |
| Fmt.CodeDisplay | src/lib.rs:303-309 | a code always displays, as its rendered bytes |
| Fmt.PrintDisplay | src/lib.rs:332-341 | no codes print nothing; otherwise printing succeeds exactly when the codes fit 64 bytes, and prints their rendering |
| Fmt.PrintDebug | src/lib.rs:343-347 | empty exactly for no codes; otherwise the display quoted exactly when no code loses its middle zero |
| Fmt.PrintCapacity | src/lib.rs:336 | any 15 codes fit the 64-byte buffer and no 31 codes do |
| Fmt.PrintCapacityTight | src/lib.rs:336 | sixteen three-digit codes overflow the 64-byte buffer while sixteen one-digit codes fit |
| Examples.SimpleCodes | src/tests.rs:4-7 | `BOLD` displays as `ESC [1m` and `RED` as `ESC [31m` |
| Examples.ModeMacroCodes | src/tests.rs:10-13 | `mode!(BOLD; {style}; FG PAL 9; BG RGB 255, 0, 0)` holds 1, 4, 38, 5, 9, 48, 2, 255, 0, 0 |
| Examples.ModeMacroExpand | src/tests.rs:12 | the arguments of that example expand to those codes |
| Examples.ModeMacroWritten3 | src/tests.rs:12 | the first three fields of that example |
| Examples.ModeMacroWritten6 | src/tests.rs:12 | the first six fields of that example |
| Examples.ModeMacroBytes | src/tests.rs:12 | the rendered bytes of that example |
| Examples.ModeBytesText | src/tests.rs:12 | those bytes read as `ESC [1;4;38;5;9;48;2;255;0;0m` |
| Examples.ModeMacroText | src/tests.rs:12 | the example fits the 64-byte buffer and displays as the test expects |
| Examples.DebugBold | src/lib.rs:311-315 | `BOLD`'s `Debug` is the quoted `\x1b[1m` |
| Examples.BrightBlackBgAsWritten | src/lib.rs:284 | `BRIGHT_BLACK_BG` (100) is written with the digits `10`, those of code 10 |
| Examples.BrightBlackBgDisplays | src/lib.rs:284 | `BRIGHT_BLACK_BG` displays as `ESC [10m`, like code 10, while its `Debug` shows `\x1b[100m` |
| Examples.SunsetCodes | src/lib.rs:33-36 | `mode!(UNDERLINE; FG RGB 243, 159, 24; BG PAL 28)` holds 4, 38, 2, 243, 159, 24, 48, 5, 28 |
| Examples.SunsetExpand | src/lib.rs:35 | the arguments of that example expand to those codes |
| Examples.ReorderedAlike | src/lib.rs:369-380 | `[100, 10]` and `[10, 100]` both display as `ESC [10;10m` |
| Examples.ReorderedDebugFirst | src/lib.rs:350-360 | `Debug` of `[100, 10]` is the quoted `\x1b[100;10m` |
| Examples.ReorderedDebugSecond | src/lib.rs:350-360 | `Debug` of `[10, 100]` is the quoted `\x1b[10;100m` |

## Left out

- Formatter plumbing: `f.write_str` and `write!` can fail, and that error is propagated. The model assumes the formatter accepts everything. It keeps only `display`'s own failure, which `Display` turns into `fmt::Error` (`None` here).
- Macro token matching: the model starts from parsed arguments. The arms of `__mode!` pick a form by its shape alone, so `FG RGB 9` (one operand with the RGB selector) and `BG PAL 1, 2, 3` are accepted. The model allows this too, since `Arg` pairs any ground and space with either operand count. Compile errors are not modelled: unknown names, non-`u8` operands, and `{v}` expressions that are not a `Code`.
- Generics and borrowing: `Print<T: AsRef<[u8]>>`, the lifetimes of `erase` and `display`, and the re-borrowed tail slice `&mut buf[skip..]`. `Print` holds a `seq`, and the tail slice is an offset into the array.
- `str::from_utf8_unchecked` becomes `Codes.Text`, which requires ASCII input. `Fmt.CodeDisplay` and `Fmt.PrintDisplay` discharge that requirement with `Render.WrittenIsAscii` before reading `display`'s output, and `Render.WrittenText` does the same for the specification. Rust's `&str` is modelled as `string`, one character per byte, which is exact for ASCII.
- `u8` arithmetic in `display_code`: the model uses unbounded integers. No value can overflow, since a digit is at most `b'0' + 9`.
- `#[inline]`, `#[repr(transparent)]`, `no_std`, derives and documentation HTML: they carry no behaviour.
- `examples/test-support.rs` is not part of this model: it only prints a demo.
