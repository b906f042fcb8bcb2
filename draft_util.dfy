/** The first draft of the wire codec (src/util.rs). It uses the same two
    alphabets and the same string substitution as the ICFP codec, but its
    integer encoder has no zero-digit case. */
module DraftUtil {
  import opened Wrappers
  import opened Primitives
  import opened IcfpUtil

  /** `convert_integer`: the same Horner loop as the ICFP codec's, so the
      same decoding; a character outside the digit alphabet panics (`None`). */
  method ConvertInteger(value: string) returns (r: Option<nat>)
    ensures r == DecodeInteger(value)
  {
    r := IcfpUtil.ConvertInteger(value);
  }

  /** `deconvert_integer`: collects digits least significant first and
      reverses them. Zero has no digits, so it encodes as the empty string. */
  method DeconvertInteger(value: nat) returns (r: string)
    ensures r == Digits(value)
  {
    var result: string := [];
    var rest: nat := value;
    while rest > 0
      invariant Digits(value) == Digits(rest) + Reverse(result)
    {
      var index := rest % Base;
      result := result + [IntegerAscii[index]];
      rest := rest / Base;
    }
    assert Digits(value) == Reverse(result);
    r := Reverse(result);
  }

  /** `convert_string`: the same substitution loop as the ICFP codec's. */
  method ConvertString(value: string) returns (r: Option<string>)
    ensures r == DecodeText(value)
  {
    r := IcfpUtil.ConvertString(value);
  }

  /** `deconvert_string`: the inverse substitution, as in the ICFP codec. */
  method DeconvertString(value: string) returns (r: Option<string>)
    ensures r == EncodeText(value)
  {
    r := IcfpUtil.DeconvertString(value);
  }

  /** The draft integer codec: zero encodes as the empty string (the ICFP
      codec writes "!"), every other number as in the ICFP codec, and
      decoding an encoding gives the number back, zero included. */
  lemma DraftIntegerCodec(n: nat)
    ensures Digits(0) == [] && EncodeInteger(0) == "!"
    ensures n > 0 ==> Digits(n) == EncodeInteger(n) && Digits(n)[0] != '!'
    ensures DecodeInteger(Digits(n)) == Some(n)
  {
    DigitsValue(n);
    EncodeIntegerCanonical(n);
  }

  /** The draft string codec keeps lengths, and its two directions are
      inverse on their alphabets. */
  lemma DraftStringCodec(wire: string, text: string)
    ensures DecodeText(wire).Some? ==>
      |DecodeText(wire).value| == |wire| && EncodeText(DecodeText(wire).value) == Some(wire)
    ensures EncodeText(text).Some? ==>
      |EncodeText(text).value| == |text| && DecodeText(EncodeText(text).value) == Some(text)
  {
    if DecodeText(wire).Some? {
      WireRoundTrip(wire);
    }
    if EncodeText(text).Some? {
      TextRoundTrip(text);
    }
  }
}
