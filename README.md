# 7clock glyph encoder, verified in Dafny

7clock is a terminal clock that draws the time with the SEGMENTED DIGIT
glyphs of the Unicode block "Symbols for Legacy Computing", so that the time
looks like a seven-segment display. This project models its glyph encoder,
`segmentify` (`src/main.rs`), in `segment.dfy` (module `SevenClock`).

`segmentify` walks the characters of a string. An ASCII digit `ch` becomes
the character whose code is `0x1FBC0 + (ch as u32)`, unwrapped from
`char::from_u32`. Any other character is copied. The results are collected
into a new string.

The model follows the code. The code adds `0x1FBC0` to the character code of
the digit (0x30..0x39), not to its numeric value, so digit `d` becomes
U+1FBF0 + d (SEGMENTED DIGIT ZERO..NINE), not U+1FBC0 + d. The model uses
`0x1FBC0 + ord(ch)` and proves it equal to `0x1FBF0 + (ch - '0')`.

Modelling choices:
- Strings are `seq<char>`. A Dafny `char` is a Unicode scalar value, which is
  what `str::chars` yields.
- `char::from_u32` is `FromU32`. It returns `None` above 0x10FFFF and on
  surrogates. Its `requires` bounds the argument to the `u32` range, so each
  call also shows that `0x1FBC0 + ch as u32` cannot overflow.
- The `unwrap` is the `.value` destructor in `SegChar`. Dafny only accepts
  it when `from_u32` returns `Some`, so the model proves the `unwrap` never
  panics.
- `map(..).collect()` is the recursive `Segmentify`: one output character
  for each input character, in order.

## Model

| member | source | states |
|---|---|---|
| `SevenClock.IsAsciiDigit` | src/main.rs:25 | `is_ascii_digit` holds of exactly the ten characters '0'..'9', the codes 0x30..0x39 |
| `SevenClock.FromU32` | src/main.rs:26 | `from_u32` gives `None` above 0x10FFFF and on 0xD800..0xDFFF, otherwise `Some` of the `char` with that code; the argument is confined to the `u32` range, so the addition feeding it cannot overflow |
| `SevenClock.SegChar` | src/main.rs:24-30 | a digit becomes code point U+1FBF0 + (digit − '0'), a segmented glyph above ASCII; any other character is returned unchanged; the result is never an ASCII digit |
| `SevenClock.DigitCodeIsChar` | src/main.rs:26 | for every ASCII digit, `0x1FBC0 + ch as u32` fits in a `u32`, lies in 0x1FBF0..0x1FBF9, is at most 0x10FFFF and is not a surrogate, so `from_u32` gives `Some` and the `unwrap` cannot panic |
| `SevenClock.FromU32OfChar` | src/main.rs:26 | round trip of the `FromU32` model above: `from_u32` of any `char`'s own code returns that `char`, so `FromU32` is the inverse of `as u32` |
| `SevenClock.SegCharDigitsDistinct` | src/main.rs:26 | distinct digits map to distinct glyphs |
| `SevenClock.SegCharInjective` | src/main.rs:25-29 | on characters that are not segmented glyphs, equal images imply equal characters |
| `SevenClock.SegCharIdempotent` | src/main.rs:25-29 | mapping a character twice gives the same result as mapping it once |
| `SevenClock.Segmentify` | src/main.rs:22-32 | the output has exactly as many characters as the input |
| `SevenClock.SegmentifyAt` | src/main.rs:23-31 | output position i is the closure applied to input position i alone, so order is preserved |
| `SevenClock.SegmentifySpec` | src/main.rs:23-31 | same length; each digit at position i becomes the code 0x1FBC0 + its character code at position i; each non-digit (':', letters, spaces) stays unchanged at position i |
| `SevenClock.SegmentifyHasNoDigits` | src/main.rs:25-28 | the output contains no ASCII digit |
| `SevenClock.SegmentifyConcat` | src/main.rs:23-31 | segmentify(a + b) == segmentify(a) + segmentify(b) |
| `SevenClock.SegmentifyIdempotent` | src/main.rs:25-28 | segmentify(segmentify(s)) == segmentify(s) |
| `SevenClock.SegmentifyInjective` | src/main.rs:23-31 | two strings without segmented glyphs that render the same are equal, so the rendering loses no information |

## Left out

- `main` (src/main.rs:15-20) is left out. It reads the local clock with `OffsetDateTime::now_local`, formats the time with the `time` crate and prints with `println!`. These are clock access, a foreign library and I/O.
- The format-description constants (src/main.rs:10-13) are left out. They are `time` crate macros with no logic of the program. As written, three of the four are the same `[hour]:[minute]:[second]`, and the TODO at src/main.rs:1-6 says the 24-hour and seconds options do not exist yet.
- src/main.rs at this version has no render loop, terminal handling, centering on resize, poll intervals, command-line flags or colour parsing.
- `segmentify` returns only the string; a character count for centering is its length, which `SevenClock.Segmentify` states equals the input's.
- How many terminal cells a glyph takes, and whether the font has the glyphs, depend on the font and the terminal, not on the code.
