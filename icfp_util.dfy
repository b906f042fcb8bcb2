/** The ICFP wire codec (src/icfp/util.rs): base-94 integers written with the
    printable characters '!'..'~', and text strings carried through a fixed
    94-character substitution. */
module IcfpUtil {
  import opened Wrappers
  import opened Primitives

  const Base: nat := 94

  /** The characters lo..hi in code-point order. */
  function Range(lo: char, hi: char): (r: string)
    requires lo <= hi < 128 as char
    ensures |r| == hi as int - lo as int + 1
    ensures forall i :: 0 <= i < |r| ==> r[i] as int == lo as int + i
  {
    seq(hi as int - lo as int + 1, i requires 0 <= i <= hi as int - lo as int => (lo as int + i) as char)
  }

  /** Digit alphabet of base-94 integers: every printable character from '!'
      to '~' in code-point order (see IntegerAsciiLiteral). */
  const IntegerAscii: string := Range('!', '~')

  /** Plain-text alphabet: position i holds the character the wire character
      IntegerAscii[i] stands for inside a string token (see StringAsciiLiteral). */
  const StringAscii: string :=
    Range('a', 'z') + Range('A', 'Z') + Range('0', '9') + Range('!', '/')
    + Range(':', '@') + Range('[', '`') + "|~ \n"

  /** The alphabets written out character by character, as the source does. */
  lemma IntegerAsciiLiteral()
    ensures IntegerAscii ==
      "!\"#$%&'()*+,-./" + ("0123456789" + (":;<=>?@" + ("ABCDEFGHIJKLMNOPQRSTUVWXYZ"
      + ("[\\]^_`" + ("abcdefghijklmnopqrstuvwxyz" + "{|}~")))))
  {
    RangeSplit('!', '/', '~');
    RangeSplit('0', '9', '~');
    RangeSplit(':', '@', '~');
    RangeSplit('A', 'Z', '~');
    RangeSplit('[', '`', '~');
    RangeSplit('a', 'z', '~');
    PunctuationText();
    DigitsText();
    SymbolsText();
    UpperText();
    BracketsText();
    LowerText();
    assert "{|}~" == Range('{', '~');
  }

  lemma RangeSplit(lo: char, mid: char, hi: char)
    requires lo <= mid < hi < 128 as char
    ensures Range(lo, hi) == Range(lo, mid) + Range((mid as int + 1) as char, hi)
  {
  }

  lemma StringAsciiLiteral()
    ensures StringAscii ==
      "abcdefghijklmnopqrstuvwxyz" + "ABCDEFGHIJKLMNOPQRSTUVWXYZ" + "0123456789"
      + "!\"#$%&'()*+,-./" + ":;<=>?@" + "[\\]^_`" + "|~ \n"
  {
    LowerText();
    UpperText();
    DigitsText();
    PunctuationText();
    SymbolsText();
    BracketsText();
  }

  lemma LowerText()
    ensures "abcdefghijklmnopqrstuvwxyz" == Range('a', 'z')
  {
  }

  lemma UpperText()
    ensures "ABCDEFGHIJKLMNOPQRSTUVWXYZ" == Range('A', 'Z')
  {
  }

  lemma DigitsText()
    ensures "0123456789" == Range('0', '9')
  {
  }

  lemma PunctuationText()
    ensures "!\"#$%&'()*+,-./" == Range('!', '/')
  {
  }

  lemma SymbolsText()
    ensures ":;<=>?@" == Range(':', '@')
  {
  }

  lemma BracketsText()
    ensures "[\\]^_`" == Range('[', '`')
  {
  }

  /** Position of a character in StringAscii, written out by character class. */
  function StringIndex(c: char): int
  {
    if 'a' <= c <= 'z' then c as int - 'a' as int
    else if 'A' <= c <= 'Z' then c as int - 'A' as int + 26
    else if '0' <= c <= '9' then c as int - '0' as int + 52
    else if '!' <= c <= '/' then c as int - '!' as int + 62
    else if ':' <= c <= '@' then c as int - ':' as int + 77
    else if '[' <= c <= '`' then c as int - '[' as int + 84
    else if c == '|' then 90
    else if c == '~' then 91
    else if c == ' ' then 92
    else if c == '\n' then 93
    else -1
  }

  lemma IntegerAsciiShape()
    ensures |IntegerAscii| == Base
    ensures forall i :: 0 <= i < Base ==> IntegerAscii[i] as int == 33 + i
  {
  }

  lemma StringAsciiShape()
    ensures |StringAscii| == Base
    ensures forall i :: 0 <= i < Base ==> StringIndex(StringAscii[i]) == i
  {
  }

  predicate Distinct(s: string)
  {
    forall i, j :: 0 <= i < j < |s| ==> s[i] != s[j]
  }

  /** Both alphabets have 94 pairwise distinct characters, so `find` on them
      is a bijection between characters and digit values. */
  lemma AlphabetsDistinct()
    ensures |IntegerAscii| == Base && |StringAscii| == Base
    ensures Distinct(IntegerAscii) && Distinct(StringAscii)
  {
    IntegerAsciiShape();
    StringAsciiShape();
  }

  /** Every character of `s` occurs in `alphabet`. */
  predicate Over(s: string, alphabet: string)
  {
    forall i :: 0 <= i < |s| ==> s[i] in alphabet
  }

  /** `str::find` of a character that occurs: its first position. */
  function IndexOf(alphabet: string, c: char): (i: nat)
    requires c in alphabet
    ensures i < |alphabet| && alphabet[i] == c
    ensures forall k :: 0 <= k < i ==> alphabet[k] != c
  {
    if alphabet[0] == c then 0 else 1 + IndexOf(alphabet[1..], c)
  }

  /** `str::find`: `None` when the character does not occur. */
  function Find(alphabet: string, c: char): (r: Option<nat>)
    ensures r.Some? <==> c in alphabet
    ensures r.Some? ==> r.value < |alphabet| && alphabet[r.value] == c
  {
    if c in alphabet then Some(IndexOf(alphabet, c)) else None
  }

  lemma IndexOfAt(alphabet: string, i: nat)
    requires Distinct(alphabet) && i < |alphabet|
    ensures IndexOf(alphabet, alphabet[i]) == i
  {
  }

  /** `find` on IntegerAscii: the printable characters '!'..'~', at offset 33. */
  lemma IntegerDigit(c: char)
    ensures c in IntegerAscii <==> '!' <= c <= '~'
    ensures '!' <= c <= '~' ==> IndexOf(IntegerAscii, c) == c as int - 33
  {
    IntegerAsciiShape();
    AlphabetsDistinct();
    if '!' <= c <= '~' {
      assert IntegerAscii[c as int - 33] == c;
      IndexOfAt(IntegerAscii, c as int - 33);
    }
  }

  /** `find` on StringAscii is StringIndex. */
  lemma StringDigit(c: char)
    ensures c in StringAscii <==> StringIndex(c) >= 0
    ensures StringIndex(c) >= 0 ==> IndexOf(StringAscii, c) == StringIndex(c)
  {
    StringAsciiShape();
    AlphabetsDistinct();
    var j := StringIndex(c);
    if c in StringAscii {
      var k :| 0 <= k < |StringAscii| && StringAscii[k] == c;
      assert j == k;
    }
    if j >= 0 {
      StringAsciiAt(c);
      IndexOfAt(StringAscii, j);
    }
  }

  lemma StringAsciiAt(c: char)
    requires StringIndex(c) >= 0
    ensures StringIndex(c) < |StringAscii| && StringAscii[StringIndex(c)] == c
  {
    var a, b, d := Range('a', 'z'), Range('A', 'Z'), Range('0', '9');
    var e, f, g := Range('!', '/'), Range(':', '@'), Range('[', '`');
    var j := StringIndex(c);
    assert StringAscii == a + b + d + e + f + g + "|~ \n";
    if 'a' <= c <= 'z' { assert StringAscii[j] == a[j]; }
    else if 'A' <= c <= 'Z' { assert StringAscii[j] == b[j - 26]; }
    else if '0' <= c <= '9' { assert StringAscii[j] == d[j - 52]; }
    else if '!' <= c <= '/' { assert StringAscii[j] == e[j - 62]; }
    else if ':' <= c <= '@' { assert StringAscii[j] == f[j - 77]; }
    else if '[' <= c <= '`' { assert StringAscii[j] == g[j - 84]; }
  }

  // ---------------------------------------------------------------------
  // Integers

  /** Value of a base-94 numeral, most significant digit first. */
  function IntegerValue(s: string): nat
    requires Over(s, IntegerAscii)
  {
    if s == [] then 0
    else Base * IntegerValue(s[..|s| - 1]) + IndexOf(IntegerAscii, s[|s| - 1])
  }

  /** Decoding of an integer body: an error as soon as a character lies
      outside the digit alphabet. */
  function DecodeInteger(s: string): Option<nat>
  {
    if Over(s, IntegerAscii) then Some(IntegerValue(s)) else None
  }

  /** Base-94 digits of n without leading zero digits; empty for zero. */
  function Digits(n: nat): string
  {
    if n == 0 then [] else Digits(n / Base) + [IntegerAscii[n % Base]]
  }

  /** Encoding of an integer: its digits, or the single zero digit "!". */
  function EncodeInteger(n: nat): string
  {
    if n == 0 then [IntegerAscii[0]] else Digits(n)
  }

  /** `convert_integer`: Horner's rule over the digits; panics (here `None`)
      on a character outside the alphabet. */
  method ConvertInteger(value: string) returns (r: Option<nat>)
    ensures r == DecodeInteger(value)
  {
    var result: nat := 0;
    for k := 0 to |value|
      invariant Over(value[..k], IntegerAscii)
      invariant result == IntegerValue(value[..k])
    {
      var index := Find(IntegerAscii, value[k]);
      if index.None? {
        return None;
      }
      assert value[..k + 1][..k] == value[..k];
      result := result * Base + index.value;
    }
    assert value[..|value|] == value;
    return Some(result);
  }

  /** `deconvert_integer`: collects digits least significant first, adds the
      zero digit for zero, and reverses. */
  method DeconvertInteger(value: nat) returns (r: string)
    ensures r == EncodeInteger(value)
  {
    var result: string := [];
    var rest: nat := value;
    while rest > 0
      invariant Digits(value) == Digits(rest) + Reverse(result)
    {
      var index := rest % Base;
      result := result + [IntegerAscii[index]];
      assert (result)[..|result| - 1] == result[..|result| - 1];
      rest := rest / Base;
    }
    assert Digits(value) == Reverse(result);
    if value == 0 {
      result := result + [IntegerAscii[0]];
      assert result == [IntegerAscii[0]];
    }
    r := Reverse(result);
  }

  lemma {:induction false} DigitsValue(n: nat)
    ensures Over(Digits(n), IntegerAscii)
    ensures IntegerValue(Digits(n)) == n
  {
    if n > 0 {
      DigitsValue(n / Base);
      var s := Digits(n);
      assert s[..|s| - 1] == Digits(n / Base);
      AlphabetsDistinct();
      IndexOfAt(IntegerAscii, n % Base);
    }
  }

  /** Decoding an encoded integer gives the integer back. */
  lemma IntegerRoundTrip(n: nat)
    ensures Over(EncodeInteger(n), IntegerAscii)
    ensures DecodeInteger(EncodeInteger(n)) == Some(n)
  {
    DigitsValue(n);
  }

  lemma {:induction false} DigitsLeading(n: nat)
    requires n > 0
    ensures Digits(n) != [] && Digits(n)[0] != IntegerAscii[0]
  {
    AlphabetsDistinct();
    if n < Base {
      assert Digits(n) == [IntegerAscii[n]];
    } else {
      DigitsLeading(n / Base);
    }
  }

  /** An encoding is never empty, and only zero starts with the zero digit:
      the encoder produces canonical numerals. */
  lemma EncodeIntegerCanonical(n: nat)
    ensures |EncodeInteger(n)| >= 1
    ensures EncodeInteger(n)[0] == '!' <==> n == 0
    ensures n == 0 ==> EncodeInteger(n) == "!"
  {
    if n > 0 {
      DigitsLeading(n);
    }
  }

  /** A numeral without a leading zero digit (or the numeral "!" itself) is
      the encoding of its value. */
  lemma {:induction false} CanonicalDecodeEncode(s: string)
    requires s != [] && Over(s, IntegerAscii)
    requires s[0] != '!' || s == "!"
    ensures EncodeInteger(IntegerValue(s)) == s
  {
    AlphabetsDistinct();
    IntegerAsciiShape();
    var p, d := s[..|s| - 1], s[|s| - 1];
    var v := IntegerValue(s);
    var i := IndexOf(IntegerAscii, d);
    if p == [] {
      assert s == [d];
      assert IntegerValue(p) == 0;
      assert v == i;
      if d != '!' {
        assert i != 0 && v / Base == 0 && v % Base == i;
        assert Digits(v) == Digits(0) + [IntegerAscii[i]];
      }
    } else {
      assert p[0] == s[0];
      CanonicalDecodeEncode(p);
      var vp := IntegerValue(p);
      EncodeIntegerCanonical(vp);
      assert vp > 0;
      assert v == Base * vp + i && v / Base == vp && v % Base == i;
      assert s == p + [d];
    }
  }

  /** The documented example: 3389 is "E&". */
  lemma EncodeIntegerExample()
    ensures EncodeInteger(3389) == "E&"
    ensures DecodeInteger("E&") == Some(3389)
  {
    IntegerAsciiShape();
    assert Digits(3389) == Digits(36) + [IntegerAscii[5]];
    assert Digits(36) == Digits(0) + [IntegerAscii[36]];
    IntegerRoundTrip(3389);
  }

  // ---------------------------------------------------------------------
  // Strings

  /** Text carried by a wire string body (every character over IntegerAscii). */
  function TextOf(wire: string): string
    requires Over(wire, IntegerAscii)
  {
    seq(|wire|, i requires 0 <= i < |wire| => StringAscii[StringAsciiIndex(IndexOf(IntegerAscii, wire[i]))])
  }

  /** Wire body of a text (every character over StringAscii). */
  function WireOf(text: string): string
    requires Over(text, StringAscii)
  {
    seq(|text|, i requires 0 <= i < |text| => IntegerAscii[IntegerAsciiIndex(IndexOf(StringAscii, text[i]))])
  }

  /** Index bounds as subset types, so the comprehensions above are well formed. */
  function StringAsciiIndex(i: nat): (j: nat)
    requires i < |IntegerAscii|
    ensures j < |StringAscii| && j == i
  {
    IntegerAsciiShape();
    StringAsciiShape();
    i
  }

  function IntegerAsciiIndex(i: nat): (j: nat)
    requires i < |StringAscii|
    ensures j < |IntegerAscii| && j == i
  {
    IntegerAsciiShape();
    StringAsciiShape();
    i
  }

  lemma TextOfSnoc(wire: string, c: char)
    requires Over(wire, IntegerAscii) && c in IntegerAscii
    ensures Over(wire + [c], IntegerAscii)
    ensures TextOf(wire + [c]) == TextOf(wire) + [StringAscii[StringAsciiIndex(IndexOf(IntegerAscii, c))]]
  {
    var w := wire + [c];
    assert forall i :: 0 <= i < |wire| ==> w[i] == wire[i];
  }

  lemma WireOfSnoc(text: string, c: char)
    requires Over(text, StringAscii) && c in StringAscii
    ensures Over(text + [c], StringAscii)
    ensures WireOf(text + [c]) == WireOf(text) + [IntegerAscii[IntegerAsciiIndex(IndexOf(StringAscii, c))]]
  {
    var t := text + [c];
    assert forall i :: 0 <= i < |text| ==> t[i] == text[i];
  }

  /** Decoding of a string body: an error on a character outside IntegerAscii. */
  function DecodeText(wire: string): Option<string>
  {
    if Over(wire, IntegerAscii) then Some(TextOf(wire)) else None
  }

  /** Encoding of a text: an error on a character outside StringAscii. */
  function EncodeText(text: string): Option<string>
  {
    if Over(text, StringAscii) then Some(WireOf(text)) else None
  }

  /** `convert_string`: maps each wire character through the substitution;
      panics (here `None`) on a character outside IntegerAscii. */
  method ConvertString(value: string) returns (r: Option<string>)
    ensures r == DecodeText(value)
  {
    var result: string := [];
    for k := 0 to |value|
      invariant Over(value[..k], IntegerAscii)
      invariant result == TextOf(value[..k])
    {
      var index := Find(IntegerAscii, value[k]);
      if index.None? {
        return None;
      }
      TextOfSnoc(value[..k], value[k]);
      assert value[..k + 1] == value[..k] + [value[k]];
      result := result + [StringAscii[StringAsciiIndex(index.value)]];
    }
    assert value[..|value|] == value;
    return Some(result);
  }

  /** `deconvert_string`: the inverse substitution; panics (here `None`) on a
      character outside StringAscii. */
  method DeconvertString(value: string) returns (r: Option<string>)
    ensures r == EncodeText(value)
  {
    var result: string := [];
    for k := 0 to |value|
      invariant Over(value[..k], StringAscii)
      invariant result == WireOf(value[..k])
    {
      var index := Find(StringAscii, value[k]);
      if index.None? {
        return None;
      }
      WireOfSnoc(value[..k], value[k]);
      assert value[..k + 1] == value[..k] + [value[k]];
      result := result + [IntegerAscii[IntegerAsciiIndex(index.value)]];
    }
    assert value[..|value|] == value;
    return Some(result);
  }

  /** A text over StringAscii survives encoding then decoding. */
  lemma TextRoundTrip(text: string)
    requires Over(text, StringAscii)
    ensures Over(WireOf(text), IntegerAscii)
    ensures DecodeText(WireOf(text)) == Some(text)
  {
    AlphabetsDistinct();
    var w := WireOf(text);
    assert Over(w, IntegerAscii);
    forall i | 0 <= i < |text|
      ensures TextOf(w)[i] == text[i]
    {
      IndexOfAt(IntegerAscii, IndexOf(StringAscii, text[i]));
    }
    assert TextOf(w) == text;
  }

  /** A wire body over IntegerAscii survives decoding then encoding. */
  lemma WireRoundTrip(wire: string)
    requires Over(wire, IntegerAscii)
    ensures Over(TextOf(wire), StringAscii)
    ensures EncodeText(TextOf(wire)) == Some(wire)
  {
    AlphabetsDistinct();
    var t := TextOf(wire);
    assert Over(t, StringAscii);
    forall i | 0 <= i < |wire|
      ensures WireOf(t)[i] == wire[i]
    {
      IndexOfAt(StringAscii, IndexOf(IntegerAscii, wire[i]));
    }
    assert WireOf(t) == wire;
  }
}
