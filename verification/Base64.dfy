/** Base64 (section 4 of RFC 4648) and the decoder of Python's `base64.b64decode`. */
module Base64 {
  import opened Text

  type byte = b: int | 0 <= b < 256
  type sextet = v: int | 0 <= v < 64

  function CharOf(v: sextet): char {
    if v < 26 then (65 + v) as char
    else if v < 52 then (71 + v) as char
    else if v < 62 then (v - 4) as char
    else if v == 62 then '+' else '/'
  }

  function SextetOf(c: char): Option<sextet> {
    if 'A' <= c <= 'Z' then Some(c as int - 65)
    else if 'a' <= c <= 'z' then Some(c as int - 71)
    else if '0' <= c <= '9' then Some(c as int + 4)
    else if c == '+' then Some(62)
    else if c == '/' then Some(63)
    else None
  }

  lemma CharsInvert(v: sextet)
    ensures SextetOf(CharOf(v)) == Some(v) && CharOf(v) != '=' && !IsSpace(CharOf(v)) && CharOf(v) as int < 128
  {
  }

  /** The alphabet of table 1 in section 4 of RFC 4648, and no other character. */
  lemma AlphabetExactly(v: sextet, c: char)
    ensures 0 <= v < 26 ==> CharOf(v) - 'A' == v as char
    ensures 26 <= v < 52 ==> CharOf(v) - 'a' == (v - 26) as char
    ensures 52 <= v < 62 ==> CharOf(v) - '0' == (v - 52) as char
    ensures v == 62 ==> CharOf(v) == '+'
    ensures v == 63 ==> CharOf(v) == '/'
    ensures SextetOf(c) == Some(v) <==> c == CharOf(v)
  {
  }

  // The four sextets of the bytes x, y, z, and the bytes of the sextets a, b, c, d.
  function Sextet0(x: byte): sextet { x / 4 }
  function Sextet1(x: byte, y: byte): sextet { x % 4 * 16 + y / 16 }
  function Sextet2(y: byte, z: byte): sextet { y % 16 * 4 + z / 64 }
  function Sextet3(z: byte): sextet { z % 64 }
  function Byte0(a: sextet, b: sextet): byte { a * 4 + b / 16 }
  function Byte1(b: sextet, c: sextet): byte { b % 16 * 16 + c / 4 }
  function Byte2(c: sextet, d: sextet): byte { c % 4 * 64 + d }

  lemma QuadBytes(x: byte, y: byte, z: byte)
    ensures Byte0(Sextet0(x), Sextet1(x, y)) == x
    ensures Byte1(Sextet1(x, y), Sextet2(y, z)) == y
    ensures Byte2(Sextet2(y, z), Sextet3(z)) == z
  {
  }

  /** Four sextets hold the same 24 bits as the three bytes they stand for, the most significant first. */
  lemma SameBits(x: byte, y: byte, z: byte)
    ensures 262144 * Sextet0(x) + 4096 * Sextet1(x, y) + 64 * Sextet2(y, z) + Sextet3(z) == 65536 * x + 256 * y + z
  {
  }

  function Encode(bs: seq<byte>): string {
    if bs == [] then ""
    else if |bs| == 1 then [CharOf(Sextet0(bs[0])), CharOf(Sextet1(bs[0], 0)), '=', '=']
    else if |bs| == 2 then
      [CharOf(Sextet0(bs[0])), CharOf(Sextet1(bs[0], bs[1])), CharOf(Sextet2(bs[1], 0)), '=']
    else
      [CharOf(Sextet0(bs[0])), CharOf(Sextet1(bs[0], bs[1])), CharOf(Sextet2(bs[1], bs[2])), CharOf(Sextet3(bs[2]))]
        + Encode(bs[3..])
  }

  /** The byte completed by the sextet `v` after the pending sextets `quad`, if any. */
  function Completed(quad: seq<sextet>, v: sextet): seq<byte>
    requires |quad| <= 3
  {
    match |quad|
    case 0 => []
    case 1 => [Byte0(quad[0], v)]
    case 2 => [Byte1(quad[1], v)]
    case _ => [Byte2(quad[2], v)]
  }

  /** The decoder's loop: `quad` holds the pending sextets, `pads` the padding seen for them. */
  function DecodeFrom(s: string, strict: bool, quad: seq<sextet>, pads: nat, padded: bool): Option<seq<byte>>
    requires |quad| <= 3
    decreases |s|
  {
    if s == "" then (if quad == [] then Some([]) else None)
    else if s[0] == '=' then
      if |quad| >= 2 && |quad| + pads + 1 >= 4 then (if strict && |s| > 1 then None else Some([]))
      else DecodeFrom(s[1..], strict, quad, if |quad| >= 2 then pads + 1 else pads, true)
    else
      match SextetOf(s[0])
      case None => if strict then None else DecodeFrom(s[1..], strict, quad, pads, padded)
      case Some(v) =>
        if strict && padded then None
        else
          var rest := DecodeFrom(s[1..], strict, if |quad| == 3 then [] else quad + [v], 0, padded);
          if rest.None? then None else Some(Completed(quad, v) + rest.value)
  }

  /** `b64decode(s, validate=strict)`: `None` stands for the exception. */
  function Decode(s: string, strict: bool): Option<seq<byte>> {
    if exists c :: c in s && c as int >= 128 then None
    else if strict && s != "" && s[0] == '=' then None
    else DecodeFrom(s, strict, [], 0, false)
  }

  function Min(a: int, b: int): int {
    if a < b then a else b
  }

  // ---- Characters outside the alphabet ----

  predicate InAlphabet(c: char) {
    'A' <= c <= 'Z' || 'a' <= c <= 'z' || '0' <= c <= '9' || c == '+' || c == '/'
  }

  function WithoutForeign(s: string): string {
    if s == "" then ""
    else (if InAlphabet(s[0]) || s[0] == '=' then [s[0]] else "") + WithoutForeign(s[1..])
  }

  lemma {:induction false} ForeignIgnored(s: string, quad: seq<sextet>, pads: nat, padded: bool)
    requires |quad| <= 3
    ensures DecodeFrom(s, false, quad, pads, padded) == DecodeFrom(WithoutForeign(s), false, quad, pads, padded)
    decreases |s|
  {
    if s != "" {
      var rest := WithoutForeign(s[1..]);
      assert ([s[0]] + rest)[1..] == rest && "" + rest == rest;
      ForeignIgnored(s[1..], if s[0] == '=' || SextetOf(s[0]).None? then quad
                             else if |quad| == 3 then [] else quad + [SextetOf(s[0]).value],
                     if s[0] == '=' then (if |quad| >= 2 then pads + 1 else pads) else if SextetOf(s[0]).None? then pads else 0,
                     padded || s[0] == '=');
    }
  }

  lemma {:induction false} ForeignRefused(s: string, quad: seq<sextet>, pads: nat, padded: bool)
    requires |quad| <= 3 && DecodeFrom(s, true, quad, pads, padded).Some?
    ensures forall c :: c in s ==> InAlphabet(c) || c == '='
    decreases |s|
  {
    if s != "" {
      assert forall c :: c in s <==> c == s[0] || c in s[1..];
      if s[0] == '=' {
        if |quad| >= 2 && |quad| + pads + 1 >= 4 {
          assert s[1..] == "";
        } else {
          ForeignRefused(s[1..], quad, if |quad| >= 2 then pads + 1 else pads, true);
        }
      } else {
        ForeignRefused(s[1..], if |quad| == 3 then [] else quad + [SextetOf(s[0]).value], 0, padded);
      }
    }
  }

  /** Strictly, a character that belongs to neither the alphabet nor the padding is refused; otherwise those within
      ASCII are ignored. */
  lemma ForeignCharacters(s: string)
    ensures Decode(s, true).Some? ==> forall c :: c in s ==> InAlphabet(c) || c == '='
    ensures (forall c :: c in s ==> c as int < 128) ==> Decode(s, false) == Decode(WithoutForeign(s), false)
    ensures (exists c :: c in s && c as int >= 128) ==> Decode(s, false) == None
  {
    hide DecodeFrom, WithoutForeign, InAlphabet;
    ForeignIgnored(s, [], 0, false);
    KeptChars(s);
    if Decode(s, true).Some? {
      ForeignRefused(s, [], 0, false);
    }
  }

  lemma {:induction false} KeptChars(s: string)
    ensures forall c :: c in WithoutForeign(s) ==> c in s
  {
    if s != "" {
      KeptChars(s[1..]);
      assert forall c :: c in s <==> c == s[0] || c in s[1..];
    }
  }

  // ---- Decoding what was encoded, cut anywhere ----

  lemma {:induction false} EncodeLength(bs: seq<byte>)
    ensures |Encode(bs)| == 4 * ((|bs| + 2) / 3)
  {
    if |bs| >= 3 {
      EncodeLength(bs[3..]);
      assert (|bs| + 2) / 3 == (|bs| - 3 + 2) / 3 + 1;
    }
  }

  lemma DecodeSextet(s: string, strict: bool, quad: seq<sextet>, v: sextet)
    requires |quad| <= 3 && s != "" && s[0] == CharOf(v)
    ensures var rest := DecodeFrom(s[1..], strict, if |quad| == 3 then [] else quad + [v], 0, false);
            DecodeFrom(s, strict, quad, 0, false) == if rest.None? then None else Some(Completed(quad, v) + rest.value)
  {
    CharsInvert(v);
  }

  /** Four sextets decode to the three bytes they carry. */
  lemma DecodeQuad(s: string, strict: bool, a: sextet, b: sextet, c: sextet, d: sextet)
    requires |s| >= 4 && s[0] == CharOf(a) && s[1] == CharOf(b) && s[2] == CharOf(c) && s[3] == CharOf(d)
    ensures var rest := DecodeFrom(s[4..], strict, [], 0, false);
            DecodeFrom(s, strict, [], 0, false) ==
              if rest.None? then None
              else Some([Byte0(a, b), Byte1(b, c), Byte2(c, d)] + rest.value)
  {
    hide DecodeFrom;
    var s1, s2, s3 := s[1..], s[2..], s[3..];
    assert s1[1..] == s2 && s2[1..] == s3 && s3[1..] == s[4..];
    var quad1: seq<sextet>, quad2: seq<sextet>, quad3: seq<sextet> := [a], [a, b], [a, b, c];
    assert [] + [a] == quad1 && quad1 + [b] == quad2 && quad2 + [c] == quad3;
    DecodeSextet(s, strict, [], a);
    DecodeSextet(s1, strict, quad1, b);
    DecodeSextet(s2, strict, quad2, c);
    DecodeSextet(s3, strict, quad3, d);
    var rest := DecodeFrom(s[4..], strict, [], 0, false);
    if rest.Some? {
      var x, y, z := Byte0(a, b), Byte1(b, c), Byte2(c, d);
      assert [] + ([x] + ([y] + ([z] + rest.value))) == [x, y, z] + rest.value;
    }
  }

  /** What `k` whole groups of an encoding carry. */
  function Carried(bs: seq<byte>, k: nat): seq<byte> {
    bs[..Min(3 * k, |bs|)]
  }

  lemma DecodeFullGroup(bs: seq<byte>, s: string, strict: bool)
    requires |bs| >= 3 && |s| >= 4 && s[..4] == Encode(bs)[..4]
    ensures var rest := DecodeFrom(s[4..], strict, [], 0, false);
            DecodeFrom(s, strict, [], 0, false) == if rest.None? then None else Some([bs[0], bs[1], bs[2]] + rest.value)
  {
    hide DecodeFrom, CharOf, Sextet0, Sextet1, Sextet2, Sextet3, Byte0, Byte1, Byte2;
    var x, y, z := bs[0], bs[1], bs[2];
    var head := [CharOf(Sextet0(x)), CharOf(Sextet1(x, y)), CharOf(Sextet2(y, z)), CharOf(Sextet3(z))];
    assert Encode(bs)[..4] == head;
    assert forall i :: 0 <= i < 4 ==> s[i] == s[..4][i];
    QuadBytes(x, y, z);
    DecodeQuad(s, strict, Sextet0(x), Sextet1(x, y), Sextet2(y, z), Sextet3(z));
  }

  /** Cut after whole groups, an encoding decodes to the bytes of those groups, strictly or not. */
  lemma {:induction false} DecodeGroups(bs: seq<byte>, k: nat, strict: bool)
    requires 4 * k <= |Encode(bs)|
    ensures DecodeFrom(Encode(bs)[..4 * k], strict, [], 0, false) == Some(Carried(bs, k))
  {
    hide DecodeFrom;
    if k == 0 {
      DecodeNothing(strict);
    } else {
      EncodeLength(bs);
      var cut := Encode(bs)[..4 * k];
      if |bs| == 1 {
        LastByte(bs, strict);
        assert cut == Encode(bs) && Carried(bs, k) == bs;
      } else if |bs| == 2 {
        LastTwoBytes(bs, strict);
        assert cut == Encode(bs) && Carried(bs, k) == bs;
      } else {
        assert cut[4..] == Encode(bs[3..])[..4 * (k - 1)];
        DecodeGroups(bs[3..], k - 1, strict);
        DecodeFullGroup(bs, cut, strict);
        FirstThree(bs, k);
      }
    }
  }

  lemma DecodeNothing(strict: bool)
    ensures DecodeFrom("", strict, [], 0, false) == Some([])
  {
  }

  lemma FirstThree(bs: seq<byte>, k: nat)
    requires |bs| >= 3 && k > 0
    ensures [bs[0], bs[1], bs[2]] + Carried(bs[3..], k - 1) == Carried(bs, k)
  {
  }

  /** The padded group that carries one byte. */
  lemma LastByte(bs: seq<byte>, strict: bool)
    requires |bs| == 1
    ensures DecodeFrom(Encode(bs), strict, [], 0, false) == Some(bs)
  {
    hide DecodeFrom, CharOf, Sextet0, Sextet1, Sextet2, Sextet3, Byte0, Byte1, Byte2;
    var e := Encode(bs);
    var a, b := Sextet0(bs[0]), Sextet1(bs[0], 0);
    QuadBytes(bs[0], 0, 0);
    var e1 := [CharOf(b), '=', '='];
    assert e[1..] == e1 && e1[1..] == "==";
    DecodeSextet(e, strict, [], a);
    assert [] + [a] == [a] && [a] + [b] == [a, b];
    DecodeSextet(e1, strict, [a], b);
    DecodePads("==", strict, [a, b]);
    assert [] + ([bs[0]] + []) == bs;
  }

  /** The padded group that carries two bytes. */
  lemma LastTwoBytes(bs: seq<byte>, strict: bool)
    requires |bs| == 2
    ensures DecodeFrom(Encode(bs), strict, [], 0, false) == Some(bs)
  {
    hide DecodeFrom, CharOf, Sextet0, Sextet1, Sextet2, Sextet3, Byte0, Byte1, Byte2;
    var e := Encode(bs);
    var a, b, c := Sextet0(bs[0]), Sextet1(bs[0], bs[1]), Sextet2(bs[1], 0);
    QuadBytes(bs[0], bs[1], 0);
    var e1, e2 := [CharOf(b), CharOf(c), '='], [CharOf(c), '='];
    assert e[1..] == e1 && e1[1..] == e2 && e2[1..] == "=";
    assert [] + [a] == [a] && [a] + [b] == [a, b] && [a, b] + [c] == [a, b, c];
    DecodeSextet(e, strict, [], a);
    DecodeSextet(e1, strict, [a], b);
    DecodeSextet(e2, strict, [a, b], c);
    DecodePads("=", strict, [a, b, c]);
    assert [] + ([bs[0]] + ([bs[1]] + [])) == bs;
  }

  lemma DecodePads(s: string, strict: bool, quad: seq<sextet>)
    requires (|quad| == 2 && s == "==") || (|quad| == 3 && s == "=")
    ensures DecodeFrom(s, strict, quad, 0, false) == Some([])
  {
    if |quad| == 2 {
      assert s[1..] == "=";
      assert DecodeFrom("=", strict, quad, 1, true) == Some([]);
    }
  }

  /** Cut inside a group, an encoding does not decode. */
  lemma {:induction false} DecodeInsideGroup(bs: seq<byte>, n: nat, strict: bool)
    requires n <= |Encode(bs)| && n % 4 != 0
    ensures DecodeFrom(Encode(bs)[..n], strict, [], 0, false) == None
  {
    hide DecodeFrom, CharOf, Sextet0, Sextet1, Sextet2, Sextet3, Byte0, Byte1, Byte2;
    EncodeLength(bs);
    var cut := Encode(bs)[..n];
    if |bs| >= 3 && n > 4 {
      assert cut[4..] == Encode(bs[3..])[..n - 4];
      DecodeInsideGroup(bs[3..], n - 4, strict);
      DecodeFullGroup(bs, cut, strict);
    } else {
      PartialGroup(bs, n, strict);
    }
  }

  lemma PartialGroup(bs: seq<byte>, n: nat, strict: bool)
    requires bs != [] && 1 <= n <= 3 && n <= |Encode(bs)|
    ensures DecodeFrom(Encode(bs)[..n], strict, [], 0, false) == None
  {
    hide CharOf, Sextet0, Sextet1, Sextet2, Sextet3, Byte0, Byte1, Byte2;
    var cut := Encode(bs)[..n];
    var a := Sextet0(bs[0]);
    DecodeSextet(cut, strict, [], a);
    assert [] + [a] == [a];
    if n == 1 {
      assert cut[1..] == "";
    } else {
      var b := Sextet1(bs[0], if |bs| == 1 then 0 else bs[1]);
      DecodeSextet(cut[1..], strict, [a], b);
      assert [a] + [b] == [a, b];
      if n == 2 {
        assert cut[1..][1..] == "";
      } else if |bs| == 1 {
        assert cut[1..][1..] == "=";
        assert DecodeFrom("", strict, [a, b], 1, true) == None;
      } else {
        var c := Sextet2(bs[1], if |bs| == 2 then 0 else bs[2]);
        DecodeSextet(cut[1..][1..], strict, [a, b], c);
        assert [a, b] + [c] == [a, b, c];
        assert cut[1..][1..][1..] == "";
      }
    }
  }

  /** Encodings are plain text: ASCII, no white space, and never starting with padding. */
  lemma {:induction false} EncodedChars(bs: seq<byte>)
    ensures forall c :: c in Encode(bs) ==> c as int < 128 && !IsSpace(c)
    ensures Encode(bs) != "" ==> Encode(bs)[0] != '='
  {
    if |bs| >= 3 {
      EncodedChars(bs[3..]);
    }
  }

  /** `Decode` of an encoding cut at `n`: the bytes of its whole groups, or nothing if it is cut inside one. */
  lemma DecodeCut(bs: seq<byte>, n: nat, strict: bool)
    requires n <= |Encode(bs)|
    ensures Decode(Encode(bs)[..n], strict) == if n % 4 == 0 then Some(Carried(bs, n / 4)) else None
  {
    hide DecodeFrom, Encode;
    var cut := Encode(bs)[..n];
    EncodedChars(bs);
    assert forall c :: c in cut ==> c in Encode(bs);
    if n % 4 == 0 {
      assert n == 4 * (n / 4);
      DecodeGroups(bs, n / 4, strict);
    } else {
      DecodeInsideGroup(bs, n, strict);
    }
  }
}
