/** `dhexd` and `dhex` (t2_json.c:23-35): the hex digits of a `\u`
    escape.  `dhexd` asserts on a character that is not a hex digit; here
    that is the None result. */
module Hex {
  import opened Common

  predicate IsHexDigit(c: char) {
    ('0' <= c <= '9') || ('a' <= c <= 'f') || ('A' <= c <= 'F')
  }

  /** `dhexd`: the value of one hex digit, either case. */
  function DigitValue(c: char): (r: Option<nat>)
    ensures r.Some? <==> IsHexDigit(c)
    ensures r.Some? ==> r.value < 16
  {
    if '0' <= c <= '9' then Some(c as int - '0' as int)
    else if 'a' <= c <= 'f' then Some(c as int - 'a' as int + 10)
    else if 'A' <= c <= 'F' then Some(c as int - 'A' as int + 10)
    else None
  }

  /** The digit of a value below 16, in upper case or in lower case. */
  function Digit(v: nat, upper: bool): (c: char)
    requires v < 16
    ensures IsHexDigit(c)
  {
    if v < 10 then ('0' as int + v) as char
    else ((if upper then 'A' else 'a') as int + v - 10) as char
  }

  /** Both spellings of a digit are read back as its value, and every hex
      digit is one of the two spellings of its value. */
  lemma {:induction false} DigitRoundTrip(v: nat, c: char)
    requires v < 16
    ensures DigitValue(Digit(v, false)) == Some(v) && DigitValue(Digit(v, true)) == Some(v)
    ensures DigitValue(c) == Some(v) <==> c == Digit(v, false) || c == Digit(v, true)
  {
  }

  /** `dhex`: four digits, most significant first, combined as
      `d0 << 12 | d1 << 8 | d2 << 4 | d3` (the digits are below 16, so the
      `|` adds); None as soon as one of them is not a hex digit. */
  function Hex4(p: seq<char>): (r: Option<nat>)
    requires |p| == 4
    ensures r.Some? <==> forall k :: 0 <= k < 4 ==> IsHexDigit(p[k])
    ensures r.Some? ==> r.value < 0x10000
  {
    match (DigitValue(p[0]), DigitValue(p[1]), DigitValue(p[2]), DigitValue(p[3]))
    case (Some(d0), Some(d1), Some(d2), Some(d3)) => Some(d0 * 4096 + d1 * 256 + d2 * 16 + d3)
    case _ => None
  }

  /** The four lower-case digits of a 16-bit value. */
  function HexQuad(v: nat): (p: seq<char>)
    requires v < 0x10000
    ensures |p| == 4
  {
    [Digit(v / 4096, false), Digit((v / 256) % 16, false), Digit((v / 16) % 16, false), Digit(v % 16, false)]
  }

  /** Reading the four digits of `v` gives `v`. */
  lemma {:induction false} HexQuadRoundTrip(v: nat)
    requires v < 0x10000
    ensures Hex4(HexQuad(v)) == Some(v)
  {
    var p := HexQuad(v);
    DigitRoundTrip(v / 4096, p[0]);
    DigitRoundTrip((v / 256) % 16, p[1]);
    DigitRoundTrip((v / 16) % 16, p[2]);
    DigitRoundTrip(v % 16, p[3]);
    SplitNibbles(v);
  }

  /** A 16-bit value is the sum of its four nibbles at their places. */
  lemma {:induction false} SplitNibbles(v: nat)
    requires v < 0x10000
    ensures (v / 4096) * 4096 + ((v / 256) % 16) * 256 + ((v / 16) % 16) * 16 + v % 16 == v
  {
    var a := v / 16;
    var b := a / 16;
    var c := b / 16;
    assert a * 16 + v % 16 == v;
    assert b * 16 + a % 16 == a;
    assert c * 16 + b % 16 == b;
    assert b == v / 256 by {
      assert b * 16 <= a < b * 16 + 16;
      assert b * 256 <= v < b * 256 + 256;
    }
    assert c == v / 4096 by {
      assert c * 16 <= b < c * 16 + 16;
      assert c * 4096 <= v < c * 4096 + 4096;
    }
  }
}
