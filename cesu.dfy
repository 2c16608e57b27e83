/** `cesu8_write` (t2_json.c:16-20): a 16-bit code point written as one,
    two or three bytes in the CESU-8 form of Unicode Technical Report #26.
    CESU-8 agrees with UTF-8 on code points below 0x10000; a surrogate
    (0xD800..0xDFFF) is written like any other three-byte code point. */
module Cesu {
  import opened Common

  /** A continuation byte, 10xxxxxx. */
  predicate IsContinuation(b: byte) {
    0x80 <= b <= 0xBF
  }

  /** The bytes `cesu8_write` stores for `cp`.  The C code combines a tag
      with shifted and masked bits by `|`; the bits never overlap, so the
      `|` is an addition here, `>> k` a division by 2^k and `& 0x3f` a
      remainder by 64. */
  function Encode(cp: nat): (r: seq<byte>)
    requires cp < 0x10000
    ensures |r| == (if cp <= 0x7F then 1 else if cp <= 0x7FF then 2 else 3)
    ensures cp <= 0x7F ==> r[0] == cp
    ensures 0x80 <= cp <= 0x7FF ==> 0xC2 <= r[0] <= 0xDF
    ensures 0x800 <= cp ==> 0xE0 <= r[0] <= 0xEF
    ensures forall k :: 1 <= k < |r| ==> IsContinuation(r[k])
  {
    if cp <= 0x7F then [cp]
    else if cp <= 0x7FF then [0xC0 + cp / 64, 0x80 + cp % 64]
    else [0xE0 + cp / 4096, 0x80 + (cp / 64) % 64, 0x80 + cp % 64]
  }

  /** The reader's side: the code point at the front of `b` and the number
      of bytes it takes, or None when `b` does not start with a one-, two-
      or three-byte sequence. */
  function Decode(b: seq<byte>): (r: Option<(nat, nat)>)
    ensures r.Some? ==> 1 <= r.value.1 <= 3 && r.value.1 <= |b| && r.value.0 < 0x10000
  {
    if |b| == 0 then None
    else if b[0] < 0x80 then Some((b[0], 1))
    else if 0xC0 <= b[0] < 0xE0 && |b| >= 2 && IsContinuation(b[1]) then
      Some(((b[0] as int - 0xC0) * 64 + (b[1] as int - 0x80), 2))
    else if 0xE0 <= b[0] < 0xF0 && |b| >= 3 && IsContinuation(b[1]) && IsContinuation(b[2]) then
      Some(((b[0] as int - 0xE0) * 4096 + (b[1] as int - 0x80) * 64 + (b[2] as int - 0x80), 3))
    else None
  }

  /** Splitting a 16-bit value into its top four, middle six and low six
      bits and putting them back together gives the value again. */
  lemma {:induction false} SplitSixSix(cp: nat)
    requires cp < 0x10000
    ensures cp / 4096 < 16
    ensures (cp / 4096) * 4096 + ((cp / 64) % 64) * 64 + cp % 64 == cp
  {
    var hi := cp / 64;
    assert hi * 64 + cp % 64 == cp;
    assert hi == (hi / 64) * 64 + hi % 64;
    assert hi / 64 == cp / 4096 by {
      DivDiv(cp, hi);
    }
  }

  /** Dividing by 64 twice is dividing by 4096. */
  lemma {:induction false} DivDiv(cp: nat, hi: nat)
    requires hi == cp / 64
    ensures hi / 64 == cp / 4096
  {
    var q := hi / 64;
    assert q * 64 <= hi < q * 64 + 64;
    assert hi * 64 <= cp < hi * 64 + 64;
    assert q * 4096 <= cp < q * 4096 + 4096;
  }

  /** Decoding the bytes of `cp`, whatever follows them, gives `cp` back
      and consumes exactly the bytes `Encode` wrote. */
  lemma {:induction false} DecodeEncode(cp: nat, rest: seq<byte>)
    requires cp < 0x10000
    ensures Decode(Encode(cp) + rest) == Some((cp, |Encode(cp)|))
  {
    var b := Encode(cp) + rest;
    if cp <= 0x7F {
    } else if cp <= 0x7FF {
      assert b[0] == 0xC0 + cp / 64 && b[1] == 0x80 + cp % 64;
    } else {
      SplitSixSix(cp);
      assert b[0] == 0xE0 + cp / 4096;
      assert b[1] == 0x80 + (cp / 64) % 64 && b[2] == 0x80 + cp % 64;
    }
  }

  /** Distinct code points are written as distinct byte sequences. */
  lemma {:induction false} EncodeInjective(a: nat, b: nat)
    requires a < 0x10000 && b < 0x10000
    requires Encode(a) == Encode(b)
    ensures a == b
  {
    DecodeEncode(a, []);
    DecodeEncode(b, []);
    assert Encode(a) + [] == Encode(a);
    assert Encode(b) + [] == Encode(b);
  }

  /** A list of code points written one after another. */
  function EncodeAll(cps: seq<nat>): (r: seq<byte>)
    requires forall k :: 0 <= k < |cps| ==> cps[k] < 0x10000
    ensures |cps| <= |r| <= 3 * |cps|
  {
    if |cps| == 0 then [] else Encode(cps[0]) + EncodeAll(cps[1..])
  }

  /** Reads code points until the bytes run out; None when some byte does
      not start a sequence. */
  function DecodeAll(b: seq<byte>): (r: Option<seq<nat>>)
    decreases |b|
  {
    if |b| == 0 then Some([])
    else match Decode(b)
      case None => None
      case Some((cp, n)) =>
        match DecodeAll(b[n..])
        case None => None
        case Some(cps) => Some([cp] + cps)
  }

  /** The CESU-8 bytes of a list of code points decode to that list: no
      sequence is a prefix of another, so the stream splits back uniquely. */
  lemma {:induction false} DecodeAllEncodeAll(cps: seq<nat>)
    requires forall k :: 0 <= k < |cps| ==> cps[k] < 0x10000
    ensures DecodeAll(EncodeAll(cps)) == Some(cps)
    decreases |cps|
  {
    if |cps| > 0 {
      var e := Encode(cps[0]);
      var tail := EncodeAll(cps[1..]);
      DecodeEncode(cps[0], tail);
      assert (e + tail)[|e|..] == tail;
      DecodeAllEncodeAll(cps[1..]);
      assert [cps[0]] + cps[1..] == cps;
    }
  }

  /** The bytes as the characters of a C `char` buffer. */
  function AsChars(b: seq<byte>): (r: seq<char>)
    ensures |r| == |b|
    ensures forall k :: 0 <= k < |b| ==> r[k] as int == b[k]
  {
    if |b| == 0 then [] else [b[0] as char] + AsChars(b[1..])
  }

  /** `cesu8_write` itself: stores the bytes of `cp` at `p[at..]`, one
      character per byte, and returns how many it stored.  The C code does
      not check the room; here the caller has to provide it. */
  method Write(p: array<char>, at: nat, cp: nat) returns (n: nat)
    requires cp < 0x10000 && at + |Encode(cp)| <= p.Length
    modifies p
    ensures n == |Encode(cp)|
    ensures p[..at + n] == old(p[..at]) + AsChars(Encode(cp))
    ensures p[at + n..] == old(p[at + n..])
  {
    ghost var b := AsChars(Encode(cp));
    if cp <= 0x7F {
      p[at] := cp as char;
      n := 1;
    } else if cp <= 0x7FF {
      p[at] := (0xC0 + cp / 64) as char;
      p[at + 1] := (0x80 + cp % 64) as char;
      n := 2;
    } else {
      p[at] := (0xE0 + cp / 4096) as char;
      p[at + 1] := (0x80 + (cp / 64) % 64) as char;
      p[at + 2] := (0x80 + cp % 64) as char;
      n := 3;
    }
    assert p[at..at + n] == b;
    assert p[..at + n] == p[..at] + p[at..at + n];
  }
}
