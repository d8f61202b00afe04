/** UTF-8 (section 3 of RFC 3629) and the strict and ignoring decoders of Python's `bytes.decode`. */
module Utf8 {
  import opened Text
  import opened Base64

  function EncodeChar(c: char): (r: seq<byte>)
    ensures 1 <= |r| <= 4
  {
    var n := c as int;
    if n < 0x80 then [n]
    else if n < 0x800 then [0xC0 + n / 64, 0x80 + n % 64]
    else if n < 0x10000 then [0xE0 + n / 4096, 0x80 + n / 64 % 64, 0x80 + n % 64]
    else [0xF0 + n / 262144, 0x80 + n / 4096 % 64, 0x80 + n / 64 % 64, 0x80 + n % 64]
  }

  function EncodeText(s: string): seq<byte> {
    if s == "" then [] else EncodeChar(s[0]) + EncodeText(s[1..])
  }

  predicate Continuation(b: byte) {
    0x80 <= b < 0xC0
  }

  /** How many bytes the character starting with `b` takes; 0 if no character starts so. */
  function LengthOf(b: byte): nat {
    if b < 0x80 then 1
    else if b < 0xC2 then 0
    else if b < 0xE0 then 2
    else if b < 0xF0 then 3
    else if b < 0xF5 then 4
    else 0
  }

  /** Whether `b` may be the second byte after `a`: no overlong forms, no surrogates, nothing above U+10FFFF. */
  predicate SecondByte(a: byte, b: byte) {
    && Continuation(b)
    && (a == 0xE0 ==> b >= 0xA0)
    && (a == 0xED ==> b < 0xA0)
    && (a == 0xF0 ==> b >= 0x90)
    && (a == 0xF4 ==> b < 0x90)
  }

  /** The longest start of `bs` that is the start of one character. */
  function ValidStart(bs: seq<byte>): (n: nat)
    ensures n <= |bs| && n <= 4
  {
    if bs == [] || LengthOf(bs[0]) == 0 then 0
    else if LengthOf(bs[0]) == 1 || |bs| == 1 || !SecondByte(bs[0], bs[1]) then 1
    else if LengthOf(bs[0]) == 2 || |bs| == 2 || !Continuation(bs[2]) then 2
    else if LengthOf(bs[0]) == 3 || |bs| == 3 || !Continuation(bs[3]) then 3
    else 4
  }

  predicate StartsWithChar(bs: seq<byte>) {
    bs != [] && LengthOf(bs[0]) > 0 && ValidStart(bs) == LengthOf(bs[0])
  }

  function CodePoint(bs: seq<byte>): (n: int)
    requires StartsWithChar(bs)
    ensures 0 <= n < 0xD800 || 0xE000 <= n < 0x110000
  {
    var a: int := bs[0];
    match LengthOf(bs[0])
    case 1 => a
    case 2 =>
      var b: int := bs[1];
      (a - 0xC0) * 64 + (b - 0x80)
    case 3 =>
      var b: int, c: int := bs[1], bs[2];
      (a - 0xE0) * 4096 + (b - 0x80) * 64 + (c - 0x80)
    case _ =>
      var b: int, c: int, d: int := bs[1], bs[2], bs[3];
      (a - 0xF0) * 262144 + (b - 0x80) * 4096 + (c - 0x80) * 64 + (d - 0x80)
  }

  function CharAtStart(bs: seq<byte>): char
    requires StartsWithChar(bs)
  {
    CodePoint(bs) as char
  }

  /** `bs.decode("utf-8")`: `None` stands for the exception. */
  function DecodeStrict(bs: seq<byte>): Option<string> {
    if bs == [] then Some("")
    else if !StartsWithChar(bs) then None
    else
      var rest := DecodeStrict(bs[LengthOf(bs[0])..]);
      if rest.None? then None else Some([CharAtStart(bs)] + rest.value)
  }

  /** `bs.decode("utf-8", errors="ignore")`: a malformed start is skipped up to where it went wrong. */
  function DecodeIgnoring(bs: seq<byte>): string {
    if bs == [] then ""
    else if StartsWithChar(bs) then [CharAtStart(bs)] + DecodeIgnoring(bs[LengthOf(bs[0])..])
    else DecodeIgnoring(bs[if ValidStart(bs) == 0 then 1 else ValidStart(bs)..])
  }

  // ---- What the strict decoder accepts ----

  lemma ShortBytes(bs: seq<byte>)
    requires StartsWithChar(bs) && LengthOf(bs[0]) <= 2
    ensures EncodeChar(CharAtStart(bs)) == bs[..LengthOf(bs[0])]
  {
  }

  lemma MediumBytes(bs: seq<byte>)
    requires StartsWithChar(bs) && LengthOf(bs[0]) == 3
    ensures EncodeChar(CharAtStart(bs)) == bs[..3]
  {
    var n: int, a: int, b: int, c: int := CodePoint(bs), bs[0] - 0xE0, bs[1] - 0x80, bs[2] - 0x80;
    assert n == (a * 64 + b) * 64 + c && 0 <= b < 64 && 0 <= c < 64;
    assert n / 64 == a * 64 + b && n % 64 == c;
    assert n / 4096 == a && n / 64 % 64 == b;
  }

  lemma LongBytes(bs: seq<byte>)
    requires StartsWithChar(bs) && LengthOf(bs[0]) == 4
    ensures EncodeChar(CharAtStart(bs)) == bs[..4]
  {
    var n: int, a: int, b: int, c: int, d: int := CodePoint(bs), bs[0] - 0xF0, bs[1] - 0x80, bs[2] - 0x80, bs[3] - 0x80;
    assert n == ((a * 64 + b) * 64 + c) * 64 + d && 0 <= b < 64 && 0 <= c < 64 && 0 <= d < 64;
    assert n / 64 == (a * 64 + b) * 64 + c && n % 64 == d;
    assert n / 4096 == a * 64 + b && n / 64 % 64 == c;
    assert n / 262144 == a && n / 4096 % 64 == b;
  }

  /** Exactly the encodings are accepted: no overlong form, no surrogate, nothing beyond the last code point. */
  lemma {:induction false} StrictExactly(bs: seq<byte>, s: string)
    ensures DecodeStrict(bs) == Some(s) <==> bs == EncodeText(s)
    decreases |bs|
  {
    hide StartsWithChar, LengthOf, CharAtStart, EncodeChar, ValidStart;
    if bs == EncodeText(s) {
      StrictCutText(s, |bs|);
      assert EncodeText(s)[..|bs|] == bs;
    }
    if bs != [] && DecodeStrict(bs) == Some(s) {
      var m := LengthOf(bs[0]);
      AcceptedBytes(bs);
      StrictExactly(bs[m..], s[1..]);
      assert bs == bs[..m] + bs[m..] && s == [CharAtStart(bs)] + s[1..];
    }
  }

  lemma AcceptedBytes(bs: seq<byte>)
    ensures StartsWithChar(bs) ==> 1 <= LengthOf(bs[0]) <= |bs| && EncodeChar(CharAtStart(bs)) == bs[..LengthOf(bs[0])]
  {
    hide EncodeChar, CharAtStart;
    if StartsWithChar(bs) {
      if LengthOf(bs[0]) <= 2 {
        ShortBytes(bs);
      } else if LengthOf(bs[0]) == 3 {
        MediumBytes(bs);
      } else {
        LongBytes(bs);
      }
    }
  }

  // ---- Encoded text, cut anywhere ----

  lemma ShortChar(c: char, rest: seq<byte>)
    requires c as int < 0x800
    ensures var bs := EncodeChar(c) + rest;
            StartsWithChar(bs) && LengthOf(bs[0]) == |EncodeChar(c)| && CodePoint(bs) == c as int
  {
    var n := c as int;
    assert n == n / 64 * 64 + n % 64;
  }

  lemma MediumChar(c: char, rest: seq<byte>)
    requires 0x800 <= c as int < 0x10000
    ensures var bs := EncodeChar(c) + rest;
            StartsWithChar(bs) && LengthOf(bs[0]) == |EncodeChar(c)| && CodePoint(bs) == c as int
  {
    var n := c as int;
    assert n / 64 == n / 4096 * 64 + n / 64 % 64;
    assert n == n / 64 * 64 + n % 64;
  }

  lemma LongChar(c: char, rest: seq<byte>)
    requires 0x10000 <= c as int
    ensures var bs := EncodeChar(c) + rest;
            StartsWithChar(bs) && LengthOf(bs[0]) == |EncodeChar(c)| && CodePoint(bs) == c as int
  {
    var n := c as int;
    assert n / 4096 == n / 262144 * 64 + n / 4096 % 64;
    assert n / 64 == n / 4096 * 64 + n / 64 % 64;
    assert n == n / 64 * 64 + n % 64;
  }

  lemma EncodedChar(c: char, rest: seq<byte>)
    ensures StartsWithChar(EncodeChar(c) + rest)
    ensures LengthOf((EncodeChar(c) + rest)[0]) == |EncodeChar(c)|
    ensures CharAtStart(EncodeChar(c) + rest) == c
  {
    hide StartsWithChar, LengthOf, CodePoint, EncodeChar;
    if c as int < 0x800 {
      ShortChar(c, rest);
    } else if c as int < 0x10000 {
      MediumChar(c, rest);
    } else {
      LongChar(c, rest);
    }
  }

  /** A proper start of an encoded character is malformed to its very end. */
  lemma CutChar(c: char, k: nat)
    requires 0 < k < |EncodeChar(c)|
    ensures !StartsWithChar(EncodeChar(c)[..k]) && ValidStart(EncodeChar(c)[..k]) == k
  {
    EncodedChar(c, []);
    assert EncodeChar(c) + [] == EncodeChar(c);
  }

  /** The number of leading characters whose encoding lies within the first `n` bytes. */
  function WholeChars(s: string, n: nat): (k: nat)
    ensures k <= |s|
  {
    if s == "" || n < |EncodeChar(s[0])| then 0 else 1 + WholeChars(s[1..], n - |EncodeChar(s[0])|)
  }

  /** Exactly the characters whose encoding survived the cut: one more would not fit. */
  lemma {:induction false} WholeCharsFit(s: string, n: nat)
    ensures var k := WholeChars(s, n);
            && |EncodeText(s[..k])| <= n
            && (k < |s| ==> n < |EncodeText(s[..k + 1])|)
  {
    if s != "" && n >= |EncodeChar(s[0])| {
      var k := WholeChars(s[1..], n - |EncodeChar(s[0])|);
      WholeCharsFit(s[1..], n - |EncodeChar(s[0])|);
      assert s[..k + 1][0] == s[0] && s[..k + 1][1..] == s[1..][..k];
      if k + 1 < |s| {
        assert s[..k + 2][0] == s[0] && s[..k + 2][1..] == s[1..][..k + 1];
      }
    } else if s != "" {
      assert s[..1][1..] == "";
    }
  }

  /** The first character of an encoded text, cut off or not. */
  lemma CutFirst(s: string, n: nat)
    requires s != "" && |EncodeChar(s[0])| <= n <= |EncodeText(s)|
    ensures n - |EncodeChar(s[0])| <= |EncodeText(s[1..])|
    ensures EncodeText(s)[..n] == EncodeChar(s[0]) + EncodeText(s[1..])[..n - |EncodeChar(s[0])|]
  {
  }

  lemma {:induction false} IgnoringCutText(s: string, n: nat)
    requires n <= |EncodeText(s)|
    ensures DecodeIgnoring(EncodeText(s)[..n]) == s[..WholeChars(s, n)]
  {
    hide StartsWithChar, LengthOf, CharAtStart, EncodeChar, ValidStart;
    if s == "" {
      assert EncodeText(s)[..n] == [];
    } else {
      var c, m, cut := s[0], |EncodeChar(s[0])|, EncodeText(s)[..n];
      if n >= m {
        CutFirst(s, n);
        var rest := EncodeText(s[1..])[..n - m];
        IgnoringCutText(s[1..], n - m);
        EncodedChar(c, rest);
        assert cut[m..] == rest;
        assert [c] + s[1..][..WholeChars(s[1..], n - m)] == s[..WholeChars(s, n)];
      } else if n > 0 {
        assert cut == EncodeChar(c)[..n];
        CutChar(c, n);
        assert cut[n..] == [];
      }
    }
  }

  lemma {:induction false} StrictCutText(s: string, n: nat)
    requires n <= |EncodeText(s)|
    ensures DecodeStrict(EncodeText(s)[..n]) in {None, Some(s[..WholeChars(s, n)])}
    ensures n == |EncodeText(s)| ==> DecodeStrict(EncodeText(s)[..n]) == Some(s)
  {
    hide StartsWithChar, LengthOf, CharAtStart, EncodeChar, ValidStart;
    if s == "" {
      assert EncodeText(s)[..n] == [];
    } else {
      var c, m, cut := s[0], |EncodeChar(s[0])|, EncodeText(s)[..n];
      if n >= m {
        CutFirst(s, n);
        var rest := EncodeText(s[1..])[..n - m];
        StrictCutText(s[1..], n - m);
        EncodedChar(c, rest);
        assert cut[m..] == rest;
        assert [c] + s[1..][..WholeChars(s[1..], n - m)] == s[..WholeChars(s, n)];
        assert [c] + s[1..] == s;
      } else if n > 0 {
        assert cut == EncodeChar(c)[..n];
        CutChar(c, n);
      }
    }
  }
}
