/**
 * The glyph encoder of the terminal clock: `segmentify` turns a formatted
 * time string such as "12:34" into the same string with every ASCII decimal
 * digit replaced by its SEGMENTED DIGIT glyph from the Unicode block
 * "Symbols for Legacy Computing" (U+1FBF0 .. U+1FBF9). Every other
 * character is kept as it is.
 *
 * Strings are sequences of Unicode scalar values (Dafny's `char`), which is
 * what Rust's `str::chars` yields.
 */
module SevenClock {

  datatype Option<T> = None | Some(value: T)

  /** Rust's `u32` range, the type of `ch as u32` and of the sum built from it. */
  const U32_LIMIT: int := 0x1_0000_0000

  /** Offset added to the character code of a digit in the source. */
  const SEGMENT_OFFSET: int := 0x1FBC0

  /** Code point of SEGMENTED DIGIT ZERO; the ten glyphs follow it in order. */
  const SEGMENTED_ZERO: int := 0x1FBF0

  /** `char::is_ascii_digit`: exactly the characters '0' ..= '9'. */
  predicate IsAsciiDigit(c: char)
    ensures IsAsciiDigit(c) <==> c in "0123456789"
    ensures IsAsciiDigit(c) <==> 0x30 <= c as int <= 0x39
  {
    '0' <= c <= '9'
  }

  /** One of the ten segmented-digit glyphs U+1FBF0 .. U+1FBF9. */
  predicate IsSegmentedGlyph(c: char) {
    SEGMENTED_ZERO <= c as int <= SEGMENTED_ZERO + 9
  }

  /**
   * `std::char::from_u32`: a `u32` names a `char` exactly when it is at most
   * 0x10FFFF and is not a UTF-16 surrogate (0xD800 .. 0xDFFF); otherwise the
   * result is `None`.
   */
  function FromU32(n: int): (r: Option<char>)
    requires 0 <= n < U32_LIMIT
    ensures r.None? <==> n > 0x10FFFF || 0xD800 <= n <= 0xDFFF
    ensures r.Some? ==> r.value as int == n
  {
    if n > 0x10FFFF || 0xD800 <= n <= 0xDFFF then None else Some(n as char)
  }

  /** `from_u32` is the inverse of `as u32` on every `char`. */
  lemma FromU32OfChar(c: char)
    ensures 0 <= c as int < U32_LIMIT
    ensures FromU32(c as int) == Some(c)
  {
  }

  /**
   * The `from_u32(0x1FBC0 + ch as u32).unwrap()` applied to a digit never
   * panics: the sum fits in a `u32`, lies in 0x1FBF0 .. 0x1FBF9, is at most
   * 0x10FFFF and is no surrogate, so `from_u32` returns `Some`.
   */
  lemma DigitCodeIsChar(c: char)
    requires IsAsciiDigit(c)
    ensures 0 <= SEGMENT_OFFSET + c as int < U32_LIMIT
    ensures SEGMENTED_ZERO <= SEGMENT_OFFSET + c as int <= SEGMENTED_ZERO + 9
    ensures SEGMENT_OFFSET + c as int <= 0x10FFFF
    ensures !(0xD800 <= SEGMENT_OFFSET + c as int <= 0xDFFF)
    ensures FromU32(SEGMENT_OFFSET + c as int).Some?
  {
  }

  /**
   * The closure mapped over the characters. A digit `c` becomes the `char`
   * with code `0x1FBC0 + (c as u32)`; the `.value` below is the `unwrap`,
   * whose `Some?` precondition is discharged here.
   */
  function SegChar(c: char): (r: char)
    ensures IsAsciiDigit(c) ==> r as int == SEGMENTED_ZERO + (c as int - '0' as int)
    ensures IsAsciiDigit(c) ==> IsSegmentedGlyph(r) && r as int > 0x7F
    ensures !IsAsciiDigit(c) ==> r == c
    ensures !IsAsciiDigit(r)
  {
    if IsAsciiDigit(c) then FromU32(SEGMENT_OFFSET + c as int).value else c
  }

  /** Ten distinct digits give ten distinct glyphs. */
  lemma SegCharDigitsDistinct(c: char, d: char)
    requires IsAsciiDigit(c) && IsAsciiDigit(d) && c != d
    ensures SegChar(c) != SegChar(d)
  {
  }

  /**
   * On characters that are not already segmented glyphs the closure is
   * injective: a digit's glyph can only be confused with the glyph itself.
   */
  lemma SegCharInjective(c: char, d: char)
    requires !IsSegmentedGlyph(c) && !IsSegmentedGlyph(d)
    requires SegChar(c) == SegChar(d)
    ensures c == d
  {
  }

  /** Applying the closure to its own output changes nothing. */
  lemma SegCharIdempotent(c: char)
    ensures SegChar(SegChar(c)) == SegChar(c)
  {
  }

  /**
   * `segmentify`: `s.chars().map(SegChar).collect()`, one output character
   * for each input character, in order.
   */
  function Segmentify(s: seq<char>): (r: seq<char>)
    ensures |r| == |s|
  {
    if s == [] then [] else [SegChar(s[0])] + Segmentify(s[1..])
  }

  /** Position `i` of the output depends on position `i` of the input alone. */
  lemma {:induction false} SegmentifyAt(s: seq<char>, i: nat)
    requires i < |s|
    ensures |Segmentify(s)| == |s|
    ensures Segmentify(s)[i] == SegChar(s[i])
  {
    if i > 0 {
      SegmentifyAt(s[1..], i - 1);
    }
  }

  /**
   * The whole behaviour at once: the output has the input's length, digits
   * are replaced by their glyph at the same position, and every other
   * character (':', letters, spaces, ...) is kept at the same position.
   */
  lemma {:induction false} SegmentifySpec(s: seq<char>)
    ensures |Segmentify(s)| == |s|
    ensures forall i :: 0 <= i < |s| && IsAsciiDigit(s[i]) ==>
      Segmentify(s)[i] as int == SEGMENT_OFFSET + s[i] as int
    ensures forall i :: 0 <= i < |s| && !IsAsciiDigit(s[i]) ==> Segmentify(s)[i] == s[i]
  {
    forall i | 0 <= i < |s|
      ensures Segmentify(s)[i] == SegChar(s[i])
    {
      SegmentifyAt(s, i);
    }
  }

  /** No ASCII digit survives. */
  lemma {:induction false} SegmentifyHasNoDigits(s: seq<char>)
    ensures forall i :: 0 <= i < |Segmentify(s)| ==> !IsAsciiDigit(Segmentify(s)[i])
  {
    forall i | 0 <= i < |Segmentify(s)|
      ensures !IsAsciiDigit(Segmentify(s)[i])
    {
      SegmentifyAt(s, i);
    }
  }

  /** `segmentify(a + b) == segmentify(a) + segmentify(b)`. */
  lemma {:induction false} SegmentifyConcat(a: seq<char>, b: seq<char>)
    ensures Segmentify(a + b) == Segmentify(a) + Segmentify(b)
  {
    if a == [] {
      assert a + b == b;
    } else {
      assert (a + b)[0] == a[0];
      assert (a + b)[1..] == a[1..] + b;
      SegmentifyConcat(a[1..], b);
    }
  }

  /** `segmentify(segmentify(s)) == segmentify(s)`. */
  lemma {:induction false} SegmentifyIdempotent(s: seq<char>)
    ensures Segmentify(Segmentify(s)) == Segmentify(s)
  {
    if s != [] {
      var t := Segmentify(s);
      assert t[0] == SegChar(s[0]);
      assert t[1..] == Segmentify(s[1..]);
      SegCharIdempotent(s[0]);
      SegmentifyIdempotent(s[1..]);
    }
  }

  /**
   * Two strings free of segmented glyphs (such as any formatted time) are
   * told apart by their rendering: no information is lost.
   */
  lemma {:induction false} SegmentifyInjective(a: seq<char>, b: seq<char>)
    requires forall i :: 0 <= i < |a| ==> !IsSegmentedGlyph(a[i])
    requires forall i :: 0 <= i < |b| ==> !IsSegmentedGlyph(b[i])
    requires Segmentify(a) == Segmentify(b)
    ensures a == b
  {
    assert |a| == |b|;
    forall i | 0 <= i < |a|
      ensures a[i] == b[i]
    {
      SegmentifyAt(a, i);
      SegmentifyAt(b, i);
      SegCharInjective(a[i], b[i]);
    }
  }
}
