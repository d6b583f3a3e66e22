/** What a string of the text form means, laid down as a relation. */
module SmlStrings {
  import opened Wrappers
  import opened Items
  import opened SmlReading

  predicate IsDigit(c: byte, d: nat, base: nat) {
    d < base && if d < 10 then c == 48 + d else c == 97 + (d - 10) || c == 65 + (d - 10)
  }

  /** `v` in digits of the base, most significant first. */
  predicate Spells(cs: seq<byte>, base: nat, v: nat)
    requires base > 0
  {
    if cs == [] then v == 0 else IsDigit(Last(cs), v % base, base) && Spells(Front(cs), base, v / base)
  }

  /** The escape sequences, without their backslash: letters, and codes in hexadecimal or octal digits. */
  predicate IsEscape(cs: seq<byte>, v: nat) {
    || (|cs| == 1 && (cs[0], v) in [(97, 7), (98, 8), (102, 12), (110, 10), (114, 13), (116, 9), (118, 11), (92, 92),
                                    (34, 34)])
    || (|cs| == 3 && cs[0] == 120 && Spells(cs[1..], 16, v))
    || (|cs| == 5 && cs[0] == 117 && Spells(cs[1..], 16, v) && IsScalar(v))
    || (|cs| == 9 && cs[0] == 85 && Spells(cs[1..], 16, v) && IsScalar(v))
    || (|cs| == 3 && 48 <= cs[0] < 56 && Spells(cs, 8, v) && v <= 255)
  }

  predicate IsScalar(v: nat) {
    v <= 0x10_FFFF && !(0xD800 <= v <= 0xDFFF)
  }

  predicate StartsWithEscape(cs: seq<byte>, length: nat, value: seq<nat>)
    requires 1 <= length < |cs|
  {
    value != [] && IsEscape(cs[1..1 + length], value[0])
  }

  /** Character by character, or one escape sequence for a character. */
  predicate Means(cs: seq<byte>, value: seq<nat>)
    decreases |cs|, 1
  {
    if cs == [] then value == []
    else if cs[0] == 92 then
      exists length: nat | 1 <= length < |cs| ::
        StartsWithEscape(cs, length, value) && Means(cs[1 + length..], value[1..])
    else cs[0] != 34 && cs[0] != 10 && value != [] && value[0] == cs[0] && Means(cs[1..], value[1..])
  }

  lemma DigitIff(c: byte, d: nat, hex: bool)
    ensures IsDigit(c, d, if hex then 16 else 8) <==> d == Digit(c) && d < if hex then 16 else 8
  {
  }

  lemma {:induction false} SpelledIff(cs: seq<byte>, hex: bool, v: nat)
    ensures Spelled(cs, hex) == Some(v) <==> Spells(cs, if hex then 16 else 8, v)
  {
    hide Digit, IsDigit;
    var base := if hex then 16 else 8;
    if cs != [] {
      SpelledIff(Front(cs), hex, v / base);
      DigitIff(Last(cs), v % base, hex);
      if Spelled(Front(cs), hex).Some? && Digit(Last(cs)) < base {
        Division(Spelled(Front(cs), hex).value, hex, Digit(Last(cs)));
      }
    }
  }

  lemma Division(front: nat, hex: bool, d: nat)
    requires d < if hex then 16 else 8
    ensures var base, v := if hex then 16 else 8, (if hex then front * 16 else front * 8) + d;
      v / base == front && v % base == d
  {
  }

  lemma EscapeIff(cs: seq<byte>, length: nat, v: nat)
    requires 1 <= length <= |cs|
    ensures Escape(cs) == (Some(v), length) <==> IsEscape(cs[..length], v)
  {
    hide Spells, Spelled;
    var es := cs[..length];
    if length == 3 {
      assert es[1..] == cs[1..3] && es == cs[..3];
      SpelledIff(cs[1..3], true, v);
      SpelledIff(cs[..3], false, v);
    } else if length == 5 {
      assert es[1..] == cs[1..5];
      SpelledIff(cs[1..5], true, v);
    } else if length == 9 {
      assert es[1..] == cs[1..9];
      SpelledIff(cs[1..9], true, v);
    }
  }

  lemma {:induction false} UnescapedIff(cs: seq<byte>, value: seq<nat>)
    ensures Unescaped(cs) == Some(value) <==> Means(cs, value)
    decreases |cs|, 1
  {
    hide IsEscape, Escape;
    if cs != [] && value != [] {
      assert value == [value[0]] + value[1..];
      if cs[0] != 92 {
        UnescapedIff(cs[1..], value[1..]);
      } else if |cs| > 1 {
        EscapedIff(cs, value);
      }
    }
  }

  lemma {:induction false} EscapedIff(cs: seq<byte>, value: seq<nat>)
    requires |cs| > 1 && cs[0] == 92 && value != []
    ensures Unescaped(cs) == Some(value) <==> Means(cs, value)
    decreases |cs|, 0
  {
    hide IsEscape, Escape;
    assert value == [value[0]] + value[1..];
    var (c, length) := Escape(cs[1..]);
    if c.Some? {
      EscapeIff(cs[1..], length, c.value);
      assert cs[1..][..length] == cs[1..1 + length];
      UnescapedIff(cs[1 + length..], value[1..]);
      assert c.value == value[0] ==> StartsWithEscape(cs, length, value);
    }
    if Means(cs, value) {
      var n: nat :| 1 <= n < |cs| && StartsWithEscape(cs, n, value) && Means(cs[1 + n..], value[1..]);
      assert cs[1..][..n] == cs[1..1 + n];
      EscapeIff(cs[1..], n, value[0]);
    }
  }

  /** A string is read as what it means, if that is ASCII text; one that means nothing is read as the empty text. */
  lemma StringReadIff(cs: seq<byte>, text: seq<byte>)
    ensures ReadString(cs) == Some(text) <==>
      if exists value :: Means(cs, value) then Means(cs, text) && forall i | 0 <= i < |text| :: text[i] < 128
      else text == []
  {
    hide Means, Unescaped;
    UnescapedIff(cs, text);
    if Unescaped(cs).Some? {
      UnescapedIff(cs, Unescaped(cs).value);
      if IsAscii(Unescaped(cs).value) {
        SameNumbers(Unescaped(cs).value);
      }
    }
    if value :| Means(cs, value) {
      UnescapedIff(cs, value);
    }
  }

  lemma {:induction false} SameNumbers(s: seq<nat>)
    requires IsAscii(s)
    ensures AsBytes(s) == s
  {
    if s != [] {
      SameNumbers(s[1..]);
      assert s == [s[0]] + s[1..];
    }
  }
}
