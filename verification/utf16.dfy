/**
 The UTF-16 encoding that turns Dafny text (a sequence of Unicode scalar
 values) into the code units a Java `String` holds. It is what relates a
 password "of n characters" to the `length()` the validator compares.
 */
module Utf16 {
  import opened Wrappers
  import opened JavaStrings

  const SupplementaryBase := 0x1_0000
  const HighSurrogateMin := 0xD800
  const LowSurrogateMin := 0xDC00
  const SurrogateEnd := 0xE000

  predicate IsHighSurrogate(u: CodeUnit) {
    HighSurrogateMin <= u as int < LowSurrogateMin
  }

  predicate IsLowSurrogate(u: CodeUnit) {
    LowSurrogateMin <= u as int < SurrogateEnd
  }

  /** The one or two code units of a single scalar value. */
  function EncodeChar(c: char): (r: JavaString)
    ensures c as int < SupplementaryBase ==> |r| == 1 && r[0] as int == c as int && !IsHighSurrogate(r[0]) && !IsLowSurrogate(r[0])
    ensures SupplementaryBase <= c as int ==> |r| == 2 && IsHighSurrogate(r[0]) && IsLowSurrogate(r[1])
  {
    if c as int < SupplementaryBase then
      [c as int as CodeUnit]
    else
      var v := c as int - SupplementaryBase;
      [(HighSurrogateMin + v / 0x400) as CodeUnit, (LowSurrogateMin + v % 0x400) as CodeUnit]
  }

  /** The scalar value a surrogate pair stands for. */
  function CombinePair(hi: CodeUnit, lo: CodeUnit): (c: char)
    requires IsHighSurrogate(hi) && IsLowSurrogate(lo)
    ensures SupplementaryBase <= c as int
  {
    (SupplementaryBase + (hi as int - HighSurrogateMin) * 0x400 + (lo as int - LowSurrogateMin)) as char
  }

  /** How many scalars of a text lie outside the Basic Multilingual Plane. */
  function SupplementaryCount(s: string): (n: nat)
    ensures n <= |s|
    ensures n == 0 <==> forall i :: 0 <= i < |s| ==> s[i] as int < SupplementaryBase
  {
    if |s| == 0 then 0
    else
      assert forall i :: 1 <= i < |s| ==> s[i] == s[1..][i - 1];
      (if SupplementaryBase <= s[0] as int then 1 else 0) + SupplementaryCount(s[1..])
  }

  /** The code units of a text: each scalar takes one unit, or two if it is supplementary. */
  function Encode(s: string): (r: JavaString)
    ensures |r| == |s| + SupplementaryCount(s)
    ensures |s| <= |r| <= 2 * |s|
  {
    if |s| == 0 then [] else EncodeChar(s[0]) + Encode(s[1..])
  }

  /** Reads code units back as text; `None` when a surrogate is unpaired. */
  function Decode(u: JavaString): (r: Option<string>)
    decreases |u|
  {
    if |u| == 0 then Some([])
    else if IsHighSurrogate(u[0]) then
      if |u| >= 2 && IsLowSurrogate(u[1]) then
        match Decode(u[2..])
        case None => None
        case Some(rest) => Some([CombinePair(u[0], u[1])] + rest)
      else None
    else if IsLowSurrogate(u[0]) then None
    else
      match Decode(u[1..])
      case None => None
      case Some(rest) => Some([u[0] as int as char] + rest)
  }

  lemma DecodeEncodeChar(c: char, rest: JavaString)
    ensures Decode(EncodeChar(c) + rest) ==
      match Decode(rest)
      case None => None
      case Some(t) => Some([c] + t)
  {
  }

  /** Decoding inverts encoding, so no two texts share their code units. */
  lemma {:induction false} DecodeEncode(s: string)
    ensures Decode(Encode(s)) == Some(s)
  {
    if |s| > 0 {
      DecodeEncode(s[1..]);
      DecodeEncodeChar(s[0], Encode(s[1..]));
      assert [s[0]] + s[1..] == s;
    }
  }

  lemma EncodeInjective(s: string, t: string)
    ensures Encode(s) == Encode(t) <==> s == t
  {
    if Encode(s) == Encode(t) {
      DecodeEncode(s);
      DecodeEncode(t);
    }
  }

  /** Text made only of Basic Multilingual Plane scalars encodes one unit per scalar. */
  lemma {:induction false} EncodeBmp(s: string)
    requires forall i :: 0 <= i < |s| ==> s[i] as int < SupplementaryBase
    ensures |Encode(s)| == |s|
    ensures forall i :: 0 <= i < |s| ==> Encode(s)[i] as int == s[i] as int
  {
    if |s| > 0 {
      EncodeBmp(s[1..]);
      var r := Encode(s);
      assert r == EncodeChar(s[0]) + Encode(s[1..]);
      forall i | 0 <= i < |s|
        ensures r[i] as int == s[i] as int
      {
        if i > 0 {
          assert r[i] == Encode(s[1..])[i - 1];
          assert s[i] == s[1..][i - 1];
        }
      }
    }
  }

}
