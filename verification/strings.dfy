/** The UTF-8-safe string utilities of television-utils: char-boundary search,
    boundary-widening slicing, the best-effort sanitizer that turns arbitrary
    bytes into terminal-safe text, the printable-ASCII counter, line
    preprocessing and middle-ellipsis shrinking.

    A Rust `&str` argument is a byte sequence (`ValidUtf8` holds of it in
    Rust; the functions here accept any bytes and the lemmas say what
    validity buys). A returned Rust `String` is a Dafny `string`, except where
    the source builds it from byte slices (`ShrinkWithEllipsis`). */
module Strings {
  import opened Wrappers
  import opened Utf8

  // ---------------------------------------------------------------------
  // Char boundaries and slicing
  // ---------------------------------------------------------------------

  /** `next_char_boundary`: the least char boundary at or after `start`,
      or the length when `start` is out of bounds. */
  function NextCharBoundary(s: seq<byte>, start: nat): (r: nat)
    ensures start >= |s| ==> r == |s|
    ensures start < |s| ==> start <= r <= |s|
    ensures IsCharBoundary(s, r)
    ensures IsCharBoundary(s, start) ==> r == start
    ensures forall j :: start <= j < r ==> !IsCharBoundary(s, j)
    decreases |s| - start
  {
    if start >= |s| then |s|
    else if IsCharBoundary(s, start) then start
    else NextCharBoundary(s, start + 1)
  }

  /** `prev_char_boundary`: the greatest char boundary at or before `start`.
      Past the end no offset is a boundary, so the search walks back to the
      length of the string. */
  function PrevCharBoundary(s: seq<byte>, start: nat): (r: nat)
    ensures r <= start && r <= |s|
    ensures IsCharBoundary(s, r)
    ensures IsCharBoundary(s, start) ==> r == start
    ensures start >= |s| ==> r == |s|
    ensures forall j :: r < j <= start ==> !IsCharBoundary(s, j)
    decreases start
  {
    if IsCharBoundary(s, start) || start == 0 then start
    else PrevCharBoundary(s, start - 1)
  }

  /** Rust's `&s[a..b]` on a `&str`, which panics unless both ends are char
      boundaries: every caller must discharge that obligation. */
  function StrSlice(s: seq<byte>, a: nat, b: nat): (r: seq<byte>)
    requires a <= b <= |s|
    requires IsCharBoundary(s, a) && IsCharBoundary(s, b)
    ensures |r| == b - a
    ensures ValidUtf8(s) ==> ValidUtf8(r)
  {
    SliceValid(s, a, b);
    s[a..b]
  }

  /** `slice_at_char_boundaries`: empty when the range is reversed or out of
      bounds, otherwise the requested range widened outward to the nearest
      char boundaries. */
  function SliceAtCharBoundaries(s: seq<byte>, startByteIndex: nat, endByteIndex: nat): (r: seq<byte>)
    ensures startByteIndex > endByteIndex || startByteIndex > |s| || endByteIndex > |s| ==> r == []
    ensures startByteIndex <= endByteIndex <= |s| ==>
              var lo := PrevCharBoundary(s, startByteIndex);
              var hi := NextCharBoundary(s, endByteIndex);
              && lo <= startByteIndex && endByteIndex <= hi
              && r == s[lo..hi]
    ensures ValidUtf8(s) ==> ValidUtf8(r)
  {
    if startByteIndex > endByteIndex || startByteIndex > |s| || endByteIndex > |s| then
      []
    else
      StrSlice(s, PrevCharBoundary(s, startByteIndex), NextCharBoundary(s, endByteIndex))
  }

  /** `slice_up_to_char_boundary`: the prefix that ends at the first char
      boundary at or after `byteIndex`; the whole string once `byteIndex`
      reaches the end. */
  function SliceUpToCharBoundary(s: seq<byte>, byteIndex: nat): (r: seq<byte>)
    ensures r <= s
    ensures byteIndex >= |s| ==> r == s
    ensures byteIndex < |s| ==> byteIndex <= |r|
    ensures IsCharBoundary(s, |r|)
    ensures forall j :: byteIndex <= j < |r| ==> !IsCharBoundary(s, j)
    ensures ValidUtf8(s) ==> ValidUtf8(r)
  {
    StrSlice(s, 0, NextCharBoundary(s, byteIndex))
  }

  /** In valid UTF-8 a char boundary is never more than three bytes ahead. */
  lemma {:induction false} NextCharBoundaryWithinThree(s: seq<byte>, i: nat)
    requires ValidUtf8(s) && i <= |s|
    ensures NextCharBoundary(s, i) <= i + 3
    decreases |s|
  {
    if i == 0 || i == |s| {
    } else {
      var n := LeadLength(s[0]);
      FirstCharEndIsBoundary(s);
      if i > n {
        var t := s[n..];
        NextCharBoundaryWithinThree(t, i - n);
        var q := NextCharBoundary(t, i - n);
        ShiftBoundary(s, q);
      }
    }
  }

  /** In valid UTF-8 a char boundary is never more than three bytes back. */
  lemma {:induction false} PrevCharBoundaryWithinThree(s: seq<byte>, i: nat)
    requires ValidUtf8(s) && i <= |s|
    ensures PrevCharBoundary(s, i) + 3 >= i
    decreases |s|
  {
    if i == 0 || i == |s| {
    } else {
      var n := LeadLength(s[0]);
      FirstCharEndIsBoundary(s);
      if i > n {
        var t := s[n..];
        PrevCharBoundaryWithinThree(t, i - n);
        var q := PrevCharBoundary(t, i - n);
        ShiftBoundary(s, q);
      }
    }
  }

  /** On a `&str`, `slice_up_to_char_boundary(s, i)` keeps between `i` and
      `i + 3` bytes. */
  lemma SliceUpToCharBoundaryLength(s: seq<byte>, byteIndex: nat)
    requires byteIndex <= |s|
    ensures ValidUtf8(s) ==> byteIndex <= |SliceUpToCharBoundary(s, byteIndex)| <= byteIndex + 3
  {
    if ValidUtf8(s) {
      NextCharBoundaryWithinThree(s, byteIndex);
    }
  }

  // ---------------------------------------------------------------------
  // The sanitizer
  // ---------------------------------------------------------------------

  /** `seq.chars().next()` on a non-empty valid string. */
  function FirstChar(s: seq<byte>): (c: char)
    requires ValidUtf8(s) && |s| > 0
    ensures EncodeChar(c) == s[..LeadLength(s[0])]
  {
    EncodeDecodeChar(s[..LeadLength(s[0])]);
    DecodeChar(s[..LeadLength(s[0])])
  }

  /** `try_parse_utf8_char`: tries the prefixes of length 1, 2, 3 and 4 in
      turn and decodes the first one that is valid UTF-8. It succeeds exactly
      when the input starts with a well-formed char, and then consumes that
      char and nothing more (`EncodeDecodeChar`: the char re-encodes to the
      consumed bytes). */
  function TryParseUtf8Char(input: seq<byte>): (r: Option<(char, nat)>)
    ensures r.Some? <==> StartsWithChar(input)
    ensures r.Some? ==>
              && r.value.1 == LeadLength(input[0])
              && r.value.0 == DecodeChar(input[..r.value.1])
  {
    TryPrefixesFrom(input, 1)
  }

  /** The attempts of `try_parse_utf8_char` from prefix length `n` on, when
      no shorter prefix has been a whole char. */
  function TryPrefixesFrom(input: seq<byte>, n: nat): (r: Option<(char, nat)>)
    requires 1 <= n
    requires StartsWithChar(input) ==> n <= LeadLength(input[0])
    ensures r.Some? <==> StartsWithChar(input)
    ensures r.Some? ==>
              && r.value.1 == LeadLength(input[0])
              && r.value.0 == DecodeChar(input[..r.value.1])
    decreases 5 - n
  {
    PrefixValidity(input);
    if n > 4 || n > |input| then None
    else if ValidUtf8(input[..n]) then
      WholeCharPrefix(input, n);
      Some((FirstChar(input[..n]), n))
    else TryPrefixesFrom(input, n + 1)
  }

  /** A valid prefix no longer than the first char is exactly that char. */
  lemma WholeCharPrefix(input: seq<byte>, n: nat)
    requires 1 <= n <= |input| && ValidUtf8(input[..n])
    requires StartsWithChar(input) ==> n <= LeadLength(input[0])
    ensures StartsWithChar(input) && LeadLength(input[0]) == n
    ensures input[..n][0] == input[0] && input[..n][..n] == input[..n]
    ensures FirstChar(input[..n]) == DecodeChar(input[..n])
  {
    PrefixValidity(input);
    assert input[..n][..n] == input[..n];
  }

  /** The glyph that stands in for a character the terminal cannot show. */
  const NullSymbol: char := '\U{2400}'

  /** The width of a tab after expansion in `preprocess_line`. */
  const TabWidth: nat := 4

  /** C0 controls U+0000-U+001F and DEL plus C1 controls U+007F-U+009F. */
  predicate IsControl(c: char) {
    c <= '\U{001F}' || '\U{007F}' <= c <= '\U{009F}'
  }

  /** The sanitizer's output alphabet: no control character, and nothing
      above U+0700 but the null symbol. */
  predicate Displayable(c: char) {
    !IsControl(c) && (c <= '\U{0700}' || c == NullSymbol)
  }

  /** What one decoded char becomes, arm by arm as the source's `match`. */
  function MapChar(c: char, tabWidth: nat): (r: string)
    ensures forall i :: 0 <= i < |r| ==> Displayable(r[i])
    ensures c == '\t' ==> r == seq(tabWidth, _ => ' ')
    ensures c == '\n' || c == '\U{FEFF}' ==> r == []
    ensures c != '\t' && c != '\n' && IsControl(c) ==> r == [NullSymbol]
    ensures c != '\U{FEFF}' && c > '\U{0700}' ==> r == [NullSymbol]
    ensures Displayable(c) ==> r == [c]
  {
    if c == ' ' then [' ']
    else if c == '\t' then seq(tabWidth, _ => ' ')
    else if c == '\n' then []
    else if c <= '\U{001F}' || '\U{007F}' <= c <= '\U{009F}' then [NullSymbol]
    else if c == '\U{FEFF}' then []
    else if c > '\U{0700}' then [NullSymbol]
    else [c]
  }

  /** Upper-case hexadecimal digit. */
  function HexDigit(d: nat): (c: char)
    requires d < 16
    ensures HexValue(c) == d
  {
    if d < 10 then ('0' as int + d) as char else ('A' as int + d - 10) as char
  }

  /** The value of an upper-case hexadecimal digit, -1 for other chars. */
  function HexValue(c: char): int {
    if '0' <= c <= '9' then c as int - '0' as int
    else if 'A' <= c <= 'F' then c as int - 'A' as int + 10
    else -1
  }

  /** `\xHH`: the escape written for a byte that starts no valid char. The
      two digits read back as the byte. */
  function HexEscape(b: byte): (r: string)
    ensures |r| == 4 && r[0] == '\\' && r[1] == 'x'
    ensures 0 <= HexValue(r[2]) < 16 && 0 <= HexValue(r[3]) < 16
    ensures HexValue(r[2]) * 16 + HexValue(r[3]) == b
    ensures forall i :: 0 <= i < |r| ==> Displayable(r[i])
  {
    ['\\', 'x', HexDigit(b / 16), HexDigit(b % 16)]
  }

  /** `replace_non_printable`: one loop step per char the decoder finds;
      a byte where no char starts becomes `\xHH` and the cursor moves one
      byte, so every step makes progress. The output never holds a control
      character nor anything above U+0700 but the null symbol. */
  function ReplaceNonPrintable(input: seq<byte>, tabWidth: nat): (r: string)
    ensures forall i :: 0 <= i < |r| ==> Displayable(r[i])
    decreases |input|
  {
    if |input| == 0 then []
    else
      match TryParseUtf8Char(input)
      case Some((c, skip)) => MapChar(c, tabWidth) + ReplaceNonPrintable(input[skip..], tabWidth)
      case None => HexEscape(input[0]) + ReplaceNonPrintable(input[1..], tabWidth)
  }

  /** One step of the sanitizer over a well-formed char. */
  lemma ReplaceNonPrintableStep(input: seq<byte>, tabWidth: nat)
    requires StartsWithChar(input)
    ensures var n := LeadLength(input[0]);
            ReplaceNonPrintable(input, tabWidth)
            == MapChar(DecodeChar(input[..n]), tabWidth) + ReplaceNonPrintable(input[n..], tabWidth)
  {
  }

  /** When no well-formed char starts the input (a stray byte, or a lead
      byte with a missing or bad continuation), its first byte is escaped
      and skipped on its own. */
  lemma ReplaceNonPrintableEscapesStrayByte(input: seq<byte>, tabWidth: nat)
    requires |input| > 0 && !StartsWithChar(input)
    ensures ReplaceNonPrintable(input, tabWidth)
            == HexEscape(input[0]) + ReplaceNonPrintable(input[1..], tabWidth)
  {
  }

  /** Sanitizing a valid string followed by anything sanitizes the two parts
      separately: the decoder never reads across the end of a valid prefix. */
  lemma {:induction false} ReplaceNonPrintableAppend(a: seq<byte>, b: seq<byte>, tabWidth: nat)
    requires ValidUtf8(a)
    ensures ReplaceNonPrintable(a + b, tabWidth)
            == ReplaceNonPrintable(a, tabWidth) + ReplaceNonPrintable(b, tabWidth)
    decreases |a|
  {
    if |a| == 0 {
      assert a + b == b;
    } else {
      var n := LeadLength(a[0]);
      var ab := a + b;
      ValidHeadTail(a);
      StartsWithCharExtend(a, b);
      var m := MapChar(DecodeChar(a[..n]), tabWidth);
      ReplaceNonPrintableStep(a, tabWidth);
      ReplaceNonPrintableStep(ab, tabWidth);
      ReplaceNonPrintableAppend(a[n..], b, tabWidth);
      ConcatRegroup(ReplaceNonPrintable(ab, tabWidth), ReplaceNonPrintable(a, tabWidth), m,
                    ReplaceNonPrintable(a[n..] + b, tabWidth), ReplaceNonPrintable(a[n..], tabWidth),
                    ReplaceNonPrintable(b, tabWidth));
    }
  }

  /** Regrouping after a common first piece: if `whole` and `left` both
      start with `m` and their tails differ by `right`, so do they. */
  lemma ConcatRegroup(whole: string, left: string, m: string, restWhole: string, restLeft: string, right: string)
    requires whole == m + restWhole && left == m + restLeft && restWhole == restLeft + right
    ensures whole == left + right
  {
  }

  /** The sanitizer reads back the chars of a displayable string unchanged. */
  lemma {:induction false} ReplaceNonPrintableKeepsDisplayable(s: string, tabWidth: nat)
    requires forall i :: 0 <= i < |s| ==> Displayable(s[i])
    ensures ReplaceNonPrintable(EncodeString(s), tabWidth) == s
    decreases |s|
  {
    if |s| > 0 {
      var e := EncodeChar(s[0]);
      var rest := EncodeString(s[1..]);
      StartsWithEncodedChar(s[0], rest);
      assert (e + rest)[|e|..] == rest;
      ReplaceNonPrintableStep(e + rest, tabWidth);
      DecodeEncodeChar(s[0]);
      ReplaceNonPrintableKeepsDisplayable(s[1..], tabWidth);
      assert s == [s[0]] + s[1..];
    }
  }

  /** The sanitizer is idempotent: sanitizing its output (as UTF-8 bytes)
      again changes nothing. */
  lemma ReplaceNonPrintableIdempotent(input: seq<byte>, tabWidth: nat)
    ensures var once := ReplaceNonPrintable(input, tabWidth);
            ReplaceNonPrintable(EncodeString(once), tabWidth) == once
  {
    ReplaceNonPrintableKeepsDisplayable(ReplaceNonPrintable(input, tabWidth), tabWidth);
  }

  /** A byte in [32, 127). */
  predicate IsPrintableAscii(b: byte) {
    32 <= b < 127
  }

  /** Every byte of `s` is printable ASCII. */
  predicate AllPrintableAscii(s: seq<byte>) {
    forall i :: 0 <= i < |s| ==> IsPrintableAscii(s[i])
  }

  /** On printable ASCII the sanitizer is the identity: the output's bytes
      are the input's bytes. */
  lemma ReplaceNonPrintableOnPrintableAscii(s: seq<byte>, tabWidth: nat)
    requires AllPrintableAscii(s)
    ensures EncodeString(ReplaceNonPrintable(s, tabWidth)) == s
    ensures |ReplaceNonPrintable(s, tabWidth)| == |s|
    ensures forall i :: 0 <= i < |s| ==> ReplaceNonPrintable(s, tabWidth)[i] as int == s[i]
  {
    ReplaceNonPrintableKeepsPrintableAscii(s, tabWidth);
    EncodeAsciiString(ReplaceNonPrintable(s, tabWidth), s);
  }

  /** Char by char, the sanitizer copies printable ASCII. */
  lemma {:induction false} ReplaceNonPrintableKeepsPrintableAscii(s: seq<byte>, tabWidth: nat)
    requires AllPrintableAscii(s)
    ensures |ReplaceNonPrintable(s, tabWidth)| == |s|
    ensures forall i :: 0 <= i < |s| ==> ReplaceNonPrintable(s, tabWidth)[i] as int == s[i]
    decreases |s|
  {
    if |s| > 0 {
      var r := ReplaceNonPrintable(s, tabWidth);
      var rest := ReplaceNonPrintable(s[1..], tabWidth);
      assert AllPrintableAscii(s[1..]) by {
        assert forall i :: 0 <= i < |s[1..]| ==> s[1..][i] == s[i + 1];
      }
      ReplaceNonPrintableKeepsPrintableAscii(s[1..], tabWidth);
      assert r == [s[0] as char] + rest by {
        PrintableAsciiStep(s, tabWidth);
      }
      forall i | 0 <= i < |s|
        ensures r[i] as int == s[i]
      {
        if i > 0 {
          assert r[i] == rest[i - 1];
        }
      }
    }
  }

  /** A printable-ASCII byte is one char the sanitizer keeps as it is. */
  lemma PrintableAsciiStep(s: seq<byte>, tabWidth: nat)
    requires |s| > 0 && IsPrintableAscii(s[0])
    ensures ReplaceNonPrintable(s, tabWidth)
            == [s[0] as char] + ReplaceNonPrintable(s[1..], tabWidth)
  {
    assert s[..1] == [s[0]];
    EncodeAsciiChar(s[0] as char);
    ReplaceNonPrintableStep(s, tabWidth);
  }

  // ---------------------------------------------------------------------
  // Printable-ASCII proportion
  // ---------------------------------------------------------------------

  /** The number of printable-ASCII bytes in `buffer`. */
  function CountPrintableAscii(buffer: seq<byte>): (n: nat)
    ensures n <= |buffer|
    ensures n == |buffer| <==> AllPrintableAscii(buffer)
    ensures n == 0 <==> forall i :: 0 <= i < |buffer| ==> !IsPrintableAscii(buffer[i])
    decreases |buffer|
  {
    if |buffer| == 0 then 0
    else
      var rest := CountPrintableAscii(buffer[1..]);
      assert forall i :: 1 <= i < |buffer| ==> buffer[1..][i - 1] == buffer[i];
      (if IsPrintableAscii(buffer[0]) then 1 else 0) + rest
  }

  /** Counting is additive over concatenation: the byte loop of
      `proportion_of_printable_ascii_characters` can be split anywhere. */
  lemma {:induction false} CountPrintableAsciiAppend(a: seq<byte>, b: seq<byte>)
    ensures CountPrintableAscii(a + b) == CountPrintableAscii(a) + CountPrintableAscii(b)
    decreases |a|
  {
    if |a| == 0 {
      assert a + b == b;
    } else {
      assert (a + b)[1..] == a[1..] + b;
      assert (a + b)[0] == a[0];
      CountPrintableAsciiAppend(a[1..], b);
    }
  }

  /** An exact fraction `numerator / denominator`; 0/0 stands for the NaN
      that the source computes for an empty buffer. */
  datatype Ratio = Ratio(numerator: nat, denominator: nat)

  /** `proportion_of_printable_ascii_characters`, as an exact fraction of
      printable bytes over all bytes. */
  function ProportionOfPrintableAsciiCharacters(buffer: seq<byte>): (r: Ratio)
    ensures r.numerator == CountPrintableAscii(buffer)
    ensures r.denominator == |buffer| && r.numerator <= r.denominator
    ensures |buffer| > 0 && AllPrintableAscii(buffer) ==> r.numerator == r.denominator
    ensures (forall i :: 0 <= i < |buffer| ==> !IsPrintableAscii(buffer[i])) ==> r.numerator == 0
  {
    Ratio(CountPrintableAscii(buffer), |buffer|)
  }

  /** `PRINTABLE_ASCII_THRESHOLD` = 0.7, as seven tenths. */
  const ThresholdNumerator: nat := 7
  const ThresholdDenominator: nat := 10

  /** `ratio > PRINTABLE_ASCII_THRESHOLD`. Like an f32 NaN, 0/0 is not
      above the threshold. */
  predicate ExceedsPrintableThreshold(r: Ratio) {
    ThresholdDenominator * r.numerator > ThresholdNumerator * r.denominator
  }

  // ---------------------------------------------------------------------
  // Line preprocessing
  // ---------------------------------------------------------------------

  /** `MAX_LINE_LENGTH`. */
  const MaxLineLength: nat := 300

  /** The chars `trim_end_matches(['\r', '\n', '\0'])` removes. */
  predicate IsLineEndByte(b: byte) {
    b == 0x0D || b == 0x0A || b == 0x00
  }

  /** `trim_end_matches(['\r', '\n', '\0'])`: the longest prefix that does
      not end in one of those bytes; everything cut off is one of them. */
  function TrimLineEnd(s: seq<byte>): (r: seq<byte>)
    ensures r <= s
    ensures |r| == 0 || !IsLineEndByte(r[|r| - 1])
    ensures forall i :: |r| <= i < |s| ==> IsLineEndByte(s[i])
    decreases |s|
  {
    if |s| > 0 && IsLineEndByte(s[|s| - 1]) then TrimLineEnd(s[..|s| - 1]) else s
  }

  /** The line `preprocess_line` sanitizes before trimming: cut at the first
      char boundary at or after `MAX_LINE_LENGTH` when the line is longer. */
  function TruncateLine(line: seq<byte>): (r: seq<byte>)
    ensures r <= line
    ensures |line| <= MaxLineLength ==> r == line
    ensures |line| > MaxLineLength ==> r == SliceUpToCharBoundary(line, MaxLineLength)
    ensures |line| > MaxLineLength ==> MaxLineLength <= |r| && IsCharBoundary(line, |r|)
    ensures ValidUtf8(line) ==> ValidUtf8(r) && |r| <= MaxLineLength + 3
  {
    if |line| > MaxLineLength then
      SliceUpToCharBoundaryLength(line, MaxLineLength);
      SliceUpToCharBoundary(line, MaxLineLength)
    else
      line
  }

  /** `preprocess_line`: truncate, trim trailing CR, LF and NUL, then
      sanitize with a tab width of 4. The result is displayable, so (LF
      being a control character) it never contains a line feed. */
  function PreprocessLine(line: seq<byte>): (r: string)
    ensures forall i :: 0 <= i < |r| ==> Displayable(r[i]) && r[i] != '\n'
  {
    ReplaceNonPrintable(TrimLineEnd(TruncateLine(line)), TabWidth)
  }

  /** A printable-ASCII line is kept as is, cut to its first 300 bytes:
      400 copies of 'a' give exactly 300 copies of 'a'. */
  lemma PreprocessPrintableLine(line: seq<byte>)
    requires AllPrintableAscii(line)
    ensures var keep := if |line| > MaxLineLength then MaxLineLength else |line|;
            EncodeString(PreprocessLine(line)) == line[..keep]
            && |PreprocessLine(line)| == keep
            && forall i :: 0 <= i < keep ==> PreprocessLine(line)[i] as int == line[i]
  {
    var keep := if |line| > MaxLineLength then MaxLineLength else |line|;
    var t := line[..keep];
    var r := PreprocessLine(line);
    assert AllPrintableAscii(t) && r == ReplaceNonPrintable(t, TabWidth) by {
      PrintableLineKept(line);
    }
    assert EncodeString(r) == t && |r| == keep && forall i :: 0 <= i < keep ==> r[i] as int == t[i] by {
      ReplaceNonPrintableOnPrintableAscii(t, TabWidth);
    }
  }

  /** On a printable-ASCII line, truncation keeps the first 300 bytes and
      trimming removes nothing, so only the sanitizer is left. */
  lemma PrintableLineKept(line: seq<byte>)
    requires AllPrintableAscii(line)
    ensures var keep := if |line| > MaxLineLength then MaxLineLength else |line|;
            && AllPrintableAscii(line[..keep])
            && PreprocessLine(line) == ReplaceNonPrintable(line[..keep], TabWidth)
  {
    var keep := if |line| > MaxLineLength then MaxLineLength else |line|;
    var t := TruncateLine(line);
    assert t == line[..keep] by {
      if |line| > MaxLineLength {
        assert IsCharBoundary(line, MaxLineLength);
      }
    }
    assert AllPrintableAscii(t);
    TrimLineEndOfPrintableAscii(t);
  }

  /** Printable ASCII has no CR, LF or NUL to trim. */
  lemma TrimLineEndOfPrintableAscii(t: seq<byte>)
    requires AllPrintableAscii(t)
    ensures TrimLineEnd(t) == t
  {
    if |t| > 0 {
      assert IsPrintableAscii(t[|t| - 1]);
    }
  }

  /** A trailing CR, LF or NUL is trimmed away, not shown. */
  lemma PreprocessDropsTrailingLineEnd(line: seq<byte>, b: byte)
    requires IsLineEndByte(b) && |line| < MaxLineLength
    ensures PreprocessLine(line + [b]) == PreprocessLine(line)
  {
    assert (line + [b])[..|line|] == line;
  }

  /** The UTF-8 bytes of U+FEFF, the byte order mark. */
  const ByteOrderMark: seq<byte> := [0xEF, 0xBB, 0xBF]

  /** A trailing byte order mark is not trimmed, but the sanitizer drops it. */
  lemma PreprocessDropsTrailingBom(line: seq<byte>)
    requires ValidUtf8(line) && |line| + 3 <= MaxLineLength
    ensures PreprocessLine(line + ByteOrderMark) == ReplaceNonPrintable(line, TabWidth)
  {
    var l := line + ByteOrderMark;
    assert PreprocessLine(l) == ReplaceNonPrintable(l, TabWidth) by {
      assert TruncateLine(l) == l;
      assert l[|l| - 1] == 0xBF;
      assert TrimLineEnd(l) == l;
    }
    assert ReplaceNonPrintable(l, TabWidth)
           == ReplaceNonPrintable(line, TabWidth) + ReplaceNonPrintable(ByteOrderMark, TabWidth) by {
      ReplaceNonPrintableAppend(line, ByteOrderMark, TabWidth);
    }
    ReplaceNonPrintableBom(TabWidth);
  }

  /** The byte order mark on its own sanitizes to nothing. */
  lemma ReplaceNonPrintableBom(tabWidth: nat)
    ensures ReplaceNonPrintable(ByteOrderMark, tabWidth) == []
  {
    var bom := ByteOrderMark;
    assert bom[..3] == bom;
    assert StartsWithChar(bom);
    ReplaceNonPrintableStep(bom, tabWidth);
    assert bom[3..] == [];
    assert DecodeChar(bom) == '\U{FEFF}';
  }

  /** A trailing DEL is not trimmed: it is shown as the null symbol. */
  lemma PreprocessShowsTrailingDelete(line: seq<byte>)
    requires ValidUtf8(line) && |line| < MaxLineLength
    ensures PreprocessLine(line + [0x7F]) == ReplaceNonPrintable(line, TabWidth) + [NullSymbol]
  {
    var del: seq<byte> := [0x7F];
    var l := line + del;
    assert PreprocessLine(l) == ReplaceNonPrintable(l, TabWidth) by {
      assert TruncateLine(l) == l;
      assert l[|l| - 1] == 0x7F;
      assert TrimLineEnd(l) == l;
    }
    assert ReplaceNonPrintable(l, TabWidth)
           == ReplaceNonPrintable(line, TabWidth) + ReplaceNonPrintable(del, TabWidth) by {
      ReplaceNonPrintableAppend(line, del, TabWidth);
    }
    ReplaceNonPrintableDelete(TabWidth);
  }

  /** DEL on its own becomes the null symbol. */
  lemma ReplaceNonPrintableDelete(tabWidth: nat)
    ensures ReplaceNonPrintable([0x7F], tabWidth) == [NullSymbol]
  {
    var del: seq<byte> := [0x7F];
    assert del[..1] == del;
    assert StartsWithChar(del);
    ReplaceNonPrintableStep(del, tabWidth);
    assert del[1..] == [];
    assert DecodeChar(del[..1]) == '\U{007F}';
  }

  // ---------------------------------------------------------------------
  // Middle ellipsis
  // ---------------------------------------------------------------------

  /** The UTF-8 bytes of U+2026 HORIZONTAL ELLIPSIS. */
  const Ellipsis: seq<byte> := [0xE2, 0x80, 0xA6]

  /** `usize::saturating_sub`. */
  function SaturatingSub(a: nat, b: nat): (r: nat)
    ensures r == if a >= b then a - b else 0
  {
    if a >= b then a - b else 0
  }

  /** `shrink_with_ellipsis`: unchanged when it fits; otherwise a prefix and
      a suffix of at least `max_length / 2 - 2` bytes each (cut at char
      boundaries) joined by an ellipsis. `|s| > max_length` keeps the
      subtraction `|s| - half` from underflowing. Shrinking a `&str` yields
      valid UTF-8 whose two kept ends are each at most three bytes longer
      than `max_length / 2 - 2`. */
  function ShrinkWithEllipsis(s: seq<byte>, maxLength: nat): (r: seq<byte>)
    ensures |s| <= maxLength ==> r == s
    ensures |s| > maxLength ==>
              var half := SaturatingSub(maxLength / 2, 2);
              var p := NextCharBoundary(s, half);
              var q := PrevCharBoundary(s, |s| - half);
              && half <= p && q <= |s| - half
              && r == s[..p] + Ellipsis + s[q..]
    ensures ValidUtf8(s) ==> ValidUtf8(r)
    ensures ValidUtf8(s) && |s| > maxLength ==>
              |r| <= 2 * SaturatingSub(maxLength / 2, 2) + 9
  {
    if |s| <= maxLength then
      s
    else
      var half := SaturatingSub(maxLength / 2, 2);
      var firstHalf := SliceUpToCharBoundary(s, half);
      var secondHalf := SliceAtCharBoundaries(s, |s| - half, |s|);
      ShrinkParts(s, half);
      firstHalf + Ellipsis + secondHalf
  }

  /** The two ends `shrink_with_ellipsis` keeps, and what joining them with
      the ellipsis gives on valid UTF-8. */
  lemma ShrinkParts(s: seq<byte>, half: nat)
    requires half <= |s|
    ensures var p := NextCharBoundary(s, half);
            var q := PrevCharBoundary(s, |s| - half);
            var front := SliceUpToCharBoundary(s, half);
            var back := SliceAtCharBoundaries(s, |s| - half, |s|);
            && half <= p && q <= |s| - half
            && front == s[..p] && back == s[q..]
            && (ValidUtf8(s) ==> ValidUtf8(front + Ellipsis + back))
            && (ValidUtf8(s) ==> |front + Ellipsis + back| <= 2 * half + 9)
  {
    var p := NextCharBoundary(s, half);
    var q := PrevCharBoundary(s, |s| - half);
    var front := SliceUpToCharBoundary(s, half);
    var back := SliceAtCharBoundaries(s, |s| - half, |s|);
    assert front == s[..p];
    assert back == s[q..] by {
      assert NextCharBoundary(s, |s|) == |s|;
      assert s[q..|s|] == s[q..];
    }
    JoinWithEllipsisValid(front, back);
    KeptEndsWithinThree(s, half);
  }

  /** Two valid strings joined by the ellipsis are valid. */
  lemma JoinWithEllipsisValid(front: seq<byte>, back: seq<byte>)
    ensures ValidUtf8(front) && ValidUtf8(back) ==> ValidUtf8(front + Ellipsis + back)
  {
    if ValidUtf8(front) && ValidUtf8(back) {
      var tail := Ellipsis + back;
      assert ValidUtf8(tail) by {
        EllipsisIsValid();
        ConcatValid(Ellipsis, back);
      }
      assert ValidUtf8(front + tail) by {
        ConcatValid(front, tail);
      }
      assert front + Ellipsis + back == front + tail;
    }
  }

  /** In valid UTF-8 the boundaries found around `half` and `|s| - half` are
      at most three bytes further out. */
  lemma KeptEndsWithinThree(s: seq<byte>, half: nat)
    requires half <= |s|
    ensures ValidUtf8(s) ==>
              && NextCharBoundary(s, half) <= half + 3
              && |s| - half - PrevCharBoundary(s, |s| - half) <= 3
  {
    if ValidUtf8(s) {
      NextCharBoundaryWithinThree(s, half);
      PrevCharBoundaryWithinThree(s, |s| - half);
    }
  }

  /** The ellipsis is one well-formed char, so valid UTF-8 on its own. */
  lemma EllipsisIsValid()
    ensures WellFormedChar(Ellipsis) && ValidUtf8(Ellipsis)
  {
    assert Ellipsis[..3] == Ellipsis;
    assert Ellipsis[3..] == [];
  }

  /** The ellipsis is the UTF-8 encoding of U+2026. */
  lemma EllipsisIsU2026()
    ensures EncodeChar('\U{2026}') == Ellipsis
  {
  }
}
