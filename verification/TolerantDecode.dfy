/** Salvaging the text of a base64 chunk that the model may have been cut off in. */
module TolerantDecode {
  import opened Text
  import opened Base64
  import opened Utf8

  /** Decode base64 and then UTF-8, both strictly. */
  function DecodeExact(s: string): Option<string> {
    var bs := Decode(s, true);
    if bs.None? then None else DecodeStrict(bs.value)
  }

  /** The tolerant decoder: exactly if possible, else without the last incomplete group, else dropping malformed bytes. */
  function DecodeTolerant(raw: string): Option<string> {
    var stripped := Strip(raw);
    if stripped == "" then None
    else if DecodeExact(stripped).Some? then DecodeExact(stripped)
    else
      var trimmed := stripped[..|stripped| - |stripped| % 4];
      if |trimmed| < 4 then None
      else if DecodeExact(trimmed).Some? then DecodeExact(trimmed)
      else
        var bs := Decode(trimmed, false);
        if bs.None? then None else Some(DecodeIgnoring(bs.value))
  }

  /** The bytes that survive when the base64 form of `text` is cut at `n`. */
  function SurvivingBytes(text: string, n: nat): nat {
    Min(3 * (n / 4), |EncodeText(text)|)
  }

  lemma StripCut(bs: seq<byte>, n: nat)
    requires n <= |Encode(bs)|
    ensures Strip(Encode(bs)[..n]) == Encode(bs)[..n]
  {
    var cut := Encode(bs)[..n];
    EncodedChars(bs);
    assert forall i :: 0 <= i < n ==> cut[i] == Encode(bs)[i] && cut[i] in Encode(bs);
  }

  /** What decoding the whole groups of a cut encoding gives, exactly and dropping malformed bytes. */
  lemma DecodeWhole(text: string, n: nat)
    requires n <= |Encode(EncodeText(text))| && n % 4 == 0
    ensures var cut, got := Encode(EncodeText(text))[..n], text[..WholeChars(text, SurvivingBytes(text, n))];
            && DecodeExact(cut) in {None, Some(got)}
            && Decode(cut, false).Some? && DecodeIgnoring(Decode(cut, false).value) == got
            && (n == |Encode(EncodeText(text))| ==> DecodeExact(cut) == Some(text))
  {
    hide Encode, Decode, DecodeStrict, DecodeIgnoring, WholeChars, EncodeText;
    var bs, m := EncodeText(text), SurvivingBytes(text, n);
    DecodeCut(bs, n, true);
    DecodeCut(bs, n, false);
    IgnoringCutText(text, m);
    StrictCutText(text, m);
    if n == |Encode(bs)| {
      EncodeLength(bs);
    }
  }

  /** Wherever the base64 form of a text is cut, salvage gives nothing (if no group is whole) or exactly the
      longest prefix of the text whose bytes all survived; never a character that was not there. */
  lemma SalvageGivesPrefix(text: string, n: nat)
    requires n <= |Encode(EncodeText(text))|
    ensures DecodeTolerant(Encode(EncodeText(text))[..n]) ==
      if n < 4 then None else Some(text[..WholeChars(text, SurvivingBytes(text, n))])
  {
    hide Encode, Decode, DecodeExact, DecodeIgnoring, WholeChars, EncodeText, Strip;
    var e := Encode(EncodeText(text));
    var cut, whole := e[..n], n - n % 4;
    StripCut(EncodeText(text), n);
    if n > 0 {
      DecodeWhole(text, whole);
      assert cut[..whole] == e[..whole];
      if n % 4 != 0 {
        InsideGroupFails(text, n);
      }
    }
  }

  lemma InsideGroupFails(text: string, n: nat)
    requires n <= |Encode(EncodeText(text))| && n % 4 != 0
    ensures DecodeExact(Encode(EncodeText(text))[..n]) == None
  {
    DecodeCut(EncodeText(text), n, true);
  }

  /** The salvaged prefix is the longest possible: one more character would need bytes that were cut off. */
  lemma SalvageIsMaximal(text: string, n: nat)
    requires 4 <= n <= |Encode(EncodeText(text))|
    ensures var got := DecodeTolerant(Encode(EncodeText(text))[..n]);
            && got.Some? && got.value <= text
            && |EncodeText(got.value)| <= SurvivingBytes(text, n)
            && (|got.value| < |text| ==> SurvivingBytes(text, n) < |EncodeText(text[..|got.value| + 1])|)
  {
    SalvageGivesPrefix(text, n);
    WholeCharsFit(text, SurvivingBytes(text, n));
  }

  /** Text that was not cut comes back exactly. */
  lemma SalvageRoundTrip(text: string)
    requires text != ""
    ensures DecodeTolerant(Encode(EncodeText(text))) == Some(text)
  {
    hide Encode, Decode, DecodeExact, DecodeIgnoring, Strip;
    var e := Encode(EncodeText(text));
    EncodeLength(EncodeText(text));
    assert e[..|e|] == e;
    DecodeWhole(text, |e|);
    StripCut(EncodeText(text), |e|);
  }
}
