/** UTF-8 byte syntax as given in section 4 of RFC 3629, the encoding of a
    Unicode scalar value, and Rust's notion of a char boundary.

    A Rust `&str` is a byte string that satisfies `ValidUtf8`; a Rust `char`
    is a Dafny `char` (a Unicode scalar value). */
module Utf8 {

  /** An octet. */
  type byte = b: int | 0 <= b < 0x100

  /** UTF8-tail of RFC 3629: a byte of the form 10xxxxxx. */
  predicate IsContinuation(b: byte) {
    0x80 <= b <= 0xBF
  }

  /** Length of the sequence that the lead byte `b` announces, or 0 when no
      well-formed sequence starts with `b` (0x80-0xC1 and 0xF5-0xFF). */
  function LeadLength(b: byte): (n: nat)
    ensures n <= 4
    ensures n > 0 ==> !IsContinuation(b)
  {
    if b <= 0x7F then 1
    else if 0xC2 <= b <= 0xDF then 2
    else if 0xE0 <= b <= 0xEF then 3
    else if 0xF0 <= b <= 0xF4 then 4
    else 0
  }

  /** The range RFC 3629 allows for the byte after the lead byte: narrower
      than UTF8-tail after E0, ED, F0 and F4, which rules out overlong forms,
      surrogates and values above U+10FFFF. */
  predicate SecondByteOk(lead: byte, b: byte) {
    if lead == 0xE0 then 0xA0 <= b <= 0xBF
    else if lead == 0xED then 0x80 <= b <= 0x9F
    else if lead == 0xF0 then 0x90 <= b <= 0xBF
    else if lead == 0xF4 then 0x80 <= b <= 0x8F
    else IsContinuation(b)
  }

  /** `s` is exactly one UTF8-char of RFC 3629. */
  predicate WellFormedChar(s: seq<byte>) {
    && |s| >= 1
    && LeadLength(s[0]) == |s|
    && (|s| >= 2 ==> SecondByteOk(s[0], s[1]))
    && (|s| >= 3 ==> IsContinuation(s[2]))
    && (|s| >= 4 ==> IsContinuation(s[3]))
  }

  /** `s` is a UTF8-octets string of RFC 3629: a sequence of well-formed
      chars. This is exactly when Rust's `str::from_utf8(s)` succeeds. */
  predicate ValidUtf8(s: seq<byte>)
    decreases |s|
  {
    || |s| == 0
    || (var n := LeadLength(s[0]);
        1 <= n <= |s| && WellFormedChar(s[..n]) && ValidUtf8(s[n..]))
  }

  /** `s` begins with one well-formed char (its length is announced by `s[0]`). */
  predicate StartsWithChar(s: seq<byte>) {
    |s| >= 1 && 1 <= LeadLength(s[0]) <= |s| && WellFormedChar(s[..LeadLength(s[0])])
  }

  /** Rust's `str::is_char_boundary`: offsets 0 and `|s|` are boundaries,
      an offset inside the string is one unless it points at a continuation
      byte, and an offset past the end is not. */
  predicate IsCharBoundary(s: seq<byte>, i: nat) {
    i == 0 || i == |s| || (i < |s| && !IsContinuation(s[i]))
  }

  /** Number of bytes UTF-8 uses for `c`. */
  function Utf8Length(c: char): nat {
    var v := c as int;
    if v < 0x80 then 1 else if v < 0x800 then 2 else if v < 0x10000 then 3 else 4
  }

  /** The UTF-8 encoding of one scalar value. */
  function EncodeChar(c: char): (r: seq<byte>)
    ensures |r| == Utf8Length(c)
    ensures WellFormedChar(r)
  {
    var v := c as int;
    if v < 0x80 then
      [v]
    else if v < 0x800 then
      TwoByteForm(v);
      [0xC0 + v / 0x40, 0x80 + v % 0x40]
    else if v < 0x10000 then
      ThreeByteForm(v);
      [0xE0 + v / 0x1000, 0x80 + (v / 0x40) % 0x40, 0x80 + v % 0x40]
    else
      FourByteForm(v);
      [0xF0 + v / 0x40000, 0x80 + (v / 0x1000) % 0x40, 0x80 + (v / 0x40) % 0x40, 0x80 + v % 0x40]
  }

  /** The bytes of a two-byte encoding lie in the ranges RFC 3629 allows. */
  lemma TwoByteForm(v: int)
    requires 0x80 <= v < 0x800
    ensures 0xC2 <= 0xC0 + v / 0x40 <= 0xDF && 0x80 <= 0x80 + v % 0x40 <= 0xBF
  {
  }

  /** The bytes of a three-byte encoding of a non-surrogate lie in the ranges
      RFC 3629 allows: no overlong form after E0, no surrogate after ED. */
  lemma ThreeByteForm(v: int)
    requires 0x800 <= v < 0x10000 && (v < 0xD800 || 0xE000 <= v)
    ensures var b0, b1 := 0xE0 + v / 0x1000, 0x80 + (v / 0x40) % 0x40;
            && 0xE0 <= b0 <= 0xEF && 0x80 <= b1 <= 0xBF && SecondByteOk(b0, b1)
            && 0x80 <= 0x80 + v % 0x40 <= 0xBF
  {
    var hi := v / 0x40;
    assert 0x20 <= hi < 0x400;
    if v < 0x1000 {
      assert hi < 0x40;
      assert hi % 0x40 == hi;
    } else if 0xD000 <= v < 0xE000 {
      assert 0x340 <= hi < 0x360;
      assert hi % 0x40 == hi - 0x340;
    }
  }

  /** The bytes of a four-byte encoding lie in the ranges RFC 3629 allows:
      no overlong form after F0, nothing above U+10FFFF after F4. */
  lemma FourByteForm(v: int)
    requires 0x10000 <= v < 0x110000
    ensures var b0, b1 := 0xF0 + v / 0x40000, 0x80 + (v / 0x1000) % 0x40;
            && 0xF0 <= b0 <= 0xF4 && 0x80 <= b1 <= 0xBF && SecondByteOk(b0, b1)
            && 0x80 <= 0x80 + (v / 0x40) % 0x40 <= 0xBF
            && 0x80 <= 0x80 + v % 0x40 <= 0xBF
  {
    var hi := v / 0x1000;
    assert 0x10 <= hi < 0x110;
    if v < 0x40000 {
      assert hi < 0x40;
      assert hi % 0x40 == hi;
    } else if 0x100000 <= v {
      assert 0x100 <= hi;
      assert hi % 0x40 == hi - 0x100;
    }
  }

  /** The scalar value one well-formed char encodes. */
  function DecodeChar(s: seq<byte>): (c: char)
    requires WellFormedChar(s)
    ensures Utf8Length(c) == |s|
  {
    var b0: int := s[0];
    if |s| == 1 then
      b0 as char
    else
      var b1: int := s[1];
      if |s| == 2 then
        ((b0 - 0xC0) * 0x40 + (b1 - 0x80)) as char
      else
        var b2: int := s[2];
        if |s| == 3 then
          ((b0 - 0xE0) * 0x1000 + (b1 - 0x80) * 0x40 + (b2 - 0x80)) as char
        else
          var b3: int := s[3];
          ((b0 - 0xF0) * 0x40000 + (b1 - 0x80) * 0x1000 + (b2 - 0x80) * 0x40 + (b3 - 0x80)) as char
  }

  /** The UTF-8 bytes of a Rust `String`. */
  function EncodeString(s: string): (r: seq<byte>)
    ensures ValidUtf8(r)
    ensures |r| >= |s|
    decreases |s|
  {
    if |s| == 0 then []
    else
      var head := EncodeChar(s[0]);
      var rest := EncodeString(s[1..]);
      assert (head + rest)[..|head|] == head;
      assert (head + rest)[|head|..] == rest;
      head + rest
  }

  /** An ASCII char is encoded as the one byte of the same value. */
  lemma EncodeAsciiChar(c: char)
    requires c < '\U{0080}'
    ensures EncodeChar(c) == [c as int]
  {
  }

  /** A string of ASCII chars encodes to the bytes with the same values. */
  lemma {:induction false} EncodeAsciiString(r: string, s: seq<byte>)
    requires |r| == |s|
    requires forall i :: 0 <= i < |s| ==> r[i] as int == s[i] < 0x80
    ensures EncodeString(r) == s
    decreases |r|
  {
    if |r| > 0 {
      assert EncodeString(r) == EncodeChar(r[0]) + EncodeString(r[1..]);
      EncodeAsciiChar(r[0]);
      assert EncodeString(r[1..]) == s[1..] by {
        EncodeAsciiString(r[1..], s[1..]);
      }
      assert s == [s[0]] + s[1..];
    }
  }

  /** Every byte of a well-formed char after the first is a continuation byte. */
  lemma WellFormedCharTail(s: seq<byte>)
    requires WellFormedChar(s)
    ensures forall j :: 1 <= j < |s| ==> IsContinuation(s[j])
  {
  }

  /** Decoding undoes encoding. */
  lemma DecodeEncodeChar(c: char)
    ensures DecodeChar(EncodeChar(c)) == c
  {
    var v := c as int;
    if v < 0x80 {
    } else if v < 0x800 {
      DecodeEncodeTwo(c);
    } else if v < 0x10000 {
      DecodeEncodeThree(c);
    } else {
      DecodeEncodeFour(c);
    }
  }

  /** The round trip for chars encoded in two bytes. */
  lemma DecodeEncodeTwo(c: char)
    requires 0x80 <= c as int < 0x800
    ensures DecodeChar(EncodeChar(c)) == c
  {
    var v := c as int;
    assert EncodeChar(c) == [0xC0 + v / 0x40, 0x80 + v % 0x40];
    assert v == (v / 0x40) * 0x40 + v % 0x40;
  }

  /** The round trip for chars encoded in three bytes. */
  lemma DecodeEncodeThree(c: char)
    requires 0x800 <= c as int < 0x10000
    ensures DecodeChar(EncodeChar(c)) == c
  {
    var v := c as int;
    assert EncodeChar(c) == [0xE0 + v / 0x1000, 0x80 + (v / 0x40) % 0x40, 0x80 + v % 0x40];
    assert v / 0x40 == (v / 0x1000) * 0x40 + (v / 0x40) % 0x40;
    assert v == (v / 0x40) * 0x40 + v % 0x40;
  }

  /** The round trip for chars encoded in four bytes. */
  lemma DecodeEncodeFour(c: char)
    requires 0x10000 <= c as int
    ensures DecodeChar(EncodeChar(c)) == c
  {
    var v := c as int;
    assert EncodeChar(c)
           == [0xF0 + v / 0x40000, 0x80 + (v / 0x1000) % 0x40, 0x80 + (v / 0x40) % 0x40, 0x80 + v % 0x40];
    assert v / 0x1000 == (v / 0x40000) * 0x40 + (v / 0x1000) % 0x40;
    assert v / 0x40 == (v / 0x1000) * 0x40 + (v / 0x40) % 0x40;
    assert v == (v / 0x40) * 0x40 + v % 0x40;
  }

  /** Encoding undoes decoding: a well-formed char is the one encoding of its value. */
  lemma EncodeDecodeChar(s: seq<byte>)
    requires WellFormedChar(s)
    ensures EncodeChar(DecodeChar(s)) == s
  {
    if |s| == 2 {
      EncodeDecodeTwo(s);
    } else if |s| == 3 {
      EncodeDecodeThree(s);
    } else if |s| == 4 {
      EncodeDecodeFour(s);
    }
  }

  /** The reverse round trip for two-byte chars. */
  lemma EncodeDecodeTwo(s: seq<byte>)
    requires WellFormedChar(s) && |s| == 2
    ensures EncodeChar(DecodeChar(s)) == s
  {
    var b0: int, b1: int := s[0], s[1];
    var v := (b0 - 0xC0) * 0x40 + (b1 - 0x80);
    assert DecodeChar(s) as int == v;
    DivModOfDigits(v, b0 - 0xC0, b1 - 0x80);
  }

  /** The reverse round trip for three-byte chars. */
  lemma EncodeDecodeThree(s: seq<byte>)
    requires WellFormedChar(s) && |s| == 3
    ensures EncodeChar(DecodeChar(s)) == s
  {
    var b0: int, b1: int, b2: int := s[0], s[1], s[2];
    var hi := (b0 - 0xE0) * 0x40 + (b1 - 0x80);
    var v := hi * 0x40 + (b2 - 0x80);
    assert DecodeChar(s) as int == v;
    DivModOfDigits(v, hi, b2 - 0x80);
    DivModOfDigits(hi, b0 - 0xE0, b1 - 0x80);
    assert v / 0x1000 == hi / 0x40;
  }

  /** The reverse round trip for four-byte chars. */
  lemma EncodeDecodeFour(s: seq<byte>)
    requires WellFormedChar(s) && |s| == 4
    ensures EncodeChar(DecodeChar(s)) == s
  {
    var b0: int, b1: int, b2: int, b3: int := s[0], s[1], s[2], s[3];
    var top := (b0 - 0xF0) * 0x40 + (b1 - 0x80);
    var hi := top * 0x40 + (b2 - 0x80);
    var v := hi * 0x40 + (b3 - 0x80);
    assert DecodeChar(s) as int == v;
    DivModOfDigits(v, hi, b3 - 0x80);
    DivModOfDigits(hi, top, b2 - 0x80);
    DivModOfDigits(top, b0 - 0xF0, b1 - 0x80);
    assert v / 0x1000 == hi / 0x40;
    assert v / 0x40000 == top / 0x40;
  }

  /** Splitting a number into base-64 digits. */
  lemma DivModOfDigits(v: int, q: int, r: int)
    requires 0 <= q && 0 <= r < 0x40 && v == q * 0x40 + r
    ensures v / 0x40 == q && v % 0x40 == r
  {
  }

  /** A non-empty valid string starts with a char, and what follows that
      char is valid. */
  lemma ValidHeadTail(a: seq<byte>)
    requires ValidUtf8(a) && |a| > 0
    ensures StartsWithChar(a) && ValidUtf8(a[LeadLength(a[0])..])
  {
  }

  /** Bytes appended after a whole char do not change that char. */
  lemma StartsWithCharExtend(a: seq<byte>, b: seq<byte>)
    requires StartsWithChar(a)
    ensures StartsWithChar(a + b)
    ensures LeadLength((a + b)[0]) == LeadLength(a[0])
    ensures var n := LeadLength(a[0]);
            (a + b)[..n] == a[..n] && (a + b)[n..] == a[n..] + b
  {
    var n := LeadLength(a[0]);
    assert (a + b)[..n] == a[..n];
    assert (a + b)[n..] == a[n..] + b;
  }

  /** The concatenation of two valid strings is valid. */
  lemma {:induction false} ConcatValid(a: seq<byte>, b: seq<byte>)
    requires ValidUtf8(a) && ValidUtf8(b)
    ensures ValidUtf8(a + b)
    decreases |a|
  {
    if |a| == 0 {
      assert a + b == b;
    } else {
      var n := LeadLength(a[0]);
      ValidHeadTail(a);
      StartsWithCharExtend(a, b);
      ConcatValid(a[n..], b);
    }
  }

  /** In a valid string the offset just after the first char is a boundary. */
  lemma FirstCharEndIsBoundary(s: seq<byte>)
    requires ValidUtf8(s) && |s| > 0
    ensures IsCharBoundary(s, LeadLength(s[0]))
  {
    var n := LeadLength(s[0]);
    if n < |s| {
      assert s[n..][0] == s[n];
    }
  }

  /** A boundary of the rest of the string, shifted past the first char, is a
      boundary of the whole string. */
  lemma ShiftBoundary(s: seq<byte>, q: nat)
    requires ValidUtf8(s) && |s| > 0
    requires q <= |s| - LeadLength(s[0]) && IsCharBoundary(s[LeadLength(s[0])..], q)
    ensures IsCharBoundary(s, LeadLength(s[0]) + q)
  {
    var n := LeadLength(s[0]);
    if q == 0 {
      FirstCharEndIsBoundary(s);
    } else if n + q < |s| {
      assert s[n..][q] == s[n + q];
    }
  }

  /** Cutting a valid string at a char boundary leaves two valid strings:
      the reason slicing at boundaries never produces invalid text. */
  lemma SplitValid(s: seq<byte>, i: nat)
    requires ValidUtf8(s) && i <= |s| && IsCharBoundary(s, i)
    ensures ValidUtf8(s[..i]) && ValidUtf8(s[i..])
  {
    PrefixValid(s, i);
    SuffixValid(s, i);
  }

  /** A boundary after the first char of a valid string is no earlier than
      that char's end. */
  lemma BoundaryAfterFirstChar(s: seq<byte>, i: nat)
    requires ValidUtf8(s) && 0 < i <= |s| && IsCharBoundary(s, i)
    ensures LeadLength(s[0]) <= i
  {
    ValidHeadTail(s);
    FirstCharContinuations(s);
  }

  /** The bytes of the first char after its lead byte are continuation bytes. */
  lemma FirstCharContinuations(s: seq<byte>)
    requires StartsWithChar(s)
    ensures forall j :: 1 <= j < LeadLength(s[0]) ==> IsContinuation(s[j])
  {
    var n := LeadLength(s[0]);
    WellFormedCharTail(s[..n]);
    assert forall j :: 1 <= j < n ==> s[..n][j] == s[j];
  }

  /** The part of a valid string before a char boundary is valid. */
  lemma {:induction false} PrefixValid(s: seq<byte>, i: nat)
    requires ValidUtf8(s) && i <= |s| && IsCharBoundary(s, i)
    ensures ValidUtf8(s[..i])
    decreases |s|
  {
    if i > 0 {
      var n := LeadLength(s[0]);
      BoundaryAfterFirstChar(s, i);
      ValidHeadTail(s);
      var t := s[n..];
      SuffixBoundary(s, n, i);
      PrefixValid(t, i - n);
      var front := s[..i];
      assert front[0] == s[0] && front[..n] == s[..n] && front[n..] == t[..i - n];
    }
  }

  /** The part of a valid string after a char boundary is valid. */
  lemma {:induction false} SuffixValid(s: seq<byte>, i: nat)
    requires ValidUtf8(s) && i <= |s| && IsCharBoundary(s, i)
    ensures ValidUtf8(s[i..])
    decreases |s|
  {
    if i == 0 {
      assert s[i..] == s;
    } else {
      var n := LeadLength(s[0]);
      BoundaryAfterFirstChar(s, i);
      ValidHeadTail(s);
      var t := s[n..];
      SuffixBoundary(s, n, i);
      SuffixValid(t, i - n);
      assert s[i..] == t[i - n..];
    }
  }

  /** A slice of a valid string between two char boundaries is valid. */
  lemma SliceValid(s: seq<byte>, a: nat, b: nat)
    requires a <= b <= |s| && IsCharBoundary(s, a) && IsCharBoundary(s, b)
    ensures ValidUtf8(s) ==> ValidUtf8(s[a..b])
  {
    if ValidUtf8(s) {
      var t := s[a..];
      assert ValidUtf8(t) by { SuffixValid(s, a); }
      assert IsCharBoundary(t, b - a) by { SuffixBoundary(s, a, b); }
      assert ValidUtf8(t[..b - a]) by { PrefixValid(t, b - a); }
      assert t[..b - a] == s[a..b];
    }
  }

  /** A boundary at or after `a` is still a boundary of the suffix from `a`. */
  lemma SuffixBoundary(s: seq<byte>, a: nat, b: nat)
    requires a <= b <= |s| && IsCharBoundary(s, b)
    ensures IsCharBoundary(s[a..], b - a)
  {
    if 0 < b - a < |s| - a {
      assert s[a..][b - a] == s[b];
    }
  }

  /** A prefix of `input` of length n (n >= 1) is valid only when `input`
      starts with a well-formed char no longer than n; the prefix that is
      exactly that char is valid. */
  lemma PrefixValidity(input: seq<byte>)
    ensures forall n :: 1 <= n <= |input| && ValidUtf8(input[..n]) ==>
              StartsWithChar(input) && LeadLength(input[0]) <= n
    ensures StartsWithChar(input) ==> ValidUtf8(input[..LeadLength(input[0])])
  {
    forall n | 1 <= n <= |input| && ValidUtf8(input[..n])
      ensures StartsWithChar(input) && LeadLength(input[0]) <= n
    {
      var p := input[..n];
      assert p[0] == input[0];
      assert p[..LeadLength(input[0])] == input[..LeadLength(input[0])];
    }
    if StartsWithChar(input) {
      var m := LeadLength(input[0]);
      var p := input[..m];
      assert p[..m] == p;
      assert p[m..] == [];
    }
  }

  /** A string that starts with the encoding of `c` starts with a char,
      and that char's length is the length of the encoding. */
  lemma StartsWithEncodedChar(c: char, rest: seq<byte>)
    ensures StartsWithChar(EncodeChar(c) + rest)
    ensures LeadLength((EncodeChar(c) + rest)[0]) == |EncodeChar(c)|
    ensures (EncodeChar(c) + rest)[..|EncodeChar(c)|] == EncodeChar(c)
  {
    var e := EncodeChar(c);
    assert (e + rest)[..|e|] == e;
  }
}
