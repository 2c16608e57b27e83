/** Bit strings and the value a bit read produces.

    A bit stream is a `seq<bool>` in the order the bit reader consumes it:
    each byte contributes its bits from the least significant one up
    (section 3.1.1 of RFC 1951). A read of n bits takes the next n bits of
    the stream in groups that never cross a byte boundary; each group is a
    number whose first bit is its least significant one, and a group read
    earlier lands in higher-order bits of the result than one read later
    (t2_inflate.c:61-83 accumulates `output = output << k | group`). */
module Bits {
  import opened Common

  function Pow2(n: nat): (r: nat)
    ensures r >= 1
  {
    if n == 0 then 1 else 2 * Pow2(n - 1)
  }

  lemma {:induction false} Pow2Add(a: nat, b: nat)
    ensures Pow2(a + b) == Pow2(a) * Pow2(b)
  {
    if a > 0 {
      Pow2Add(a - 1, b);
    }
  }

  lemma {:induction false} Pow2Monotone(a: nat, b: nat)
    requires a <= b
    ensures Pow2(a) <= Pow2(b)
  {
    if a < b {
      Pow2Monotone(a, b - 1);
    }
  }

  function Bit(b: bool): nat {
    if b then 1 else 0
  }

  /** The low k bits of x, least significant first. */
  function LowBits(x: nat, k: nat): (r: seq<bool>)
    ensures |r| == k
  {
    if k == 0 then [] else [x % 2 == 1] + LowBits(x / 2, k - 1)
  }

  /** The number whose bits, least significant first, are `bits`. */
  function LsbValue(bits: seq<bool>): nat {
    if |bits| == 0 then 0 else Bit(bits[0]) + 2 * LsbValue(bits[1..])
  }

  /** The number whose bits, most significant first, are `bits`: the value
      that `code = (code << 1) | bit` accumulates one bit at a time. */
  function MsbValue(bits: seq<bool>): nat {
    if |bits| == 0 then 0 else 2 * MsbValue(bits[..|bits| - 1]) + Bit(bits[|bits| - 1])
  }

  /** The bit stream of a byte sequence. */
  function BytesToBits(s: seq<byte>): (r: seq<bool>)
    ensures |r| == 8 * |s|
  {
    if |s| == 0 then [] else LowBits(s[0], 8) + BytesToBits(s[1..])
  }

  /** The bytes of a whole number of stream bytes. */
  function BitsToBytes(bits: seq<bool>): (r: seq<byte>)
    requires |bits| % 8 == 0
    ensures 8 * |r| == |bits|
  {
    if |bits| == 0 then []
    else
      LsbBound(bits[..8]);
      [LsbValue(bits[..8]) as byte] + BitsToBytes(bits[8..])
  }

  // ---------------------------------------------------------------------
  // Arithmetic on powers of two

  lemma {:induction false} DivModUnique(x: int, m: int, q: int, r: int)
    requires m > 0 && 0 <= r < m && x == m * q + r
    ensures x / m == q && x % m == r
  {
    var q', r' := x / m, x % m;
    assert m * (q - q') == r' - r;
    MulSmall(m, q - q');
  }

  lemma {:induction false} MulSmall(m: int, d: int)
    requires m > 0 && -m < m * d < m
    ensures d == 0
  {
    assert d >= 1 ==> m * d >= m;
    assert d <= -1 ==> m * d <= -m;
  }

  /** Splitting off the lowest bit of a division or remainder by 2^(k+1). */
  lemma {:induction false} Pow2Step(x: nat, k: nat)
    ensures x % Pow2(k + 1) == x % 2 + 2 * ((x / 2) % Pow2(k))
    ensures x / Pow2(k + 1) == (x / 2) / Pow2(k)
  {
    var p := Pow2(k);
    var q, r0 := x / 2, x % 2;
    var a, b := q / p, q % p;
    assert q == p * a + b;
    assert x == (2 * p) * a + (2 * b + r0);
    DivModUnique(x, 2 * p, a, 2 * b + r0);
  }

  lemma {:induction false} LsbBound(bits: seq<bool>)
    ensures LsbValue(bits) < Pow2(|bits|)
  {
    if |bits| > 0 {
      LsbBound(bits[1..]);
    }
  }

  lemma {:induction false} MsbBound(bits: seq<bool>)
    ensures MsbValue(bits) < Pow2(|bits|)
  {
    if |bits| > 0 {
      MsbBound(bits[..|bits| - 1]);
    }
  }

  /** The low bits of x read back as a number are x mod 2^k. */
  lemma {:induction false} LsbLowBits(x: nat, k: nat)
    ensures LsbValue(LowBits(x, k)) == x % Pow2(k)
  {
    if k > 0 {
      LsbLowBits(x / 2, k - 1);
      assert LowBits(x, k)[1..] == LowBits(x / 2, k - 1);
      Pow2Step(x, k - 1);
    }
  }

  lemma {:induction false} LowBitsPrefix(x: nat, a: nat, k: nat)
    requires k <= a
    ensures LowBits(x, a)[..k] == LowBits(x, k)
  {
    if k > 0 {
      LowBitsPrefix(x / 2, a - 1, k - 1);
      assert LowBits(x, a)[..k] == [x % 2 == 1] + LowBits(x / 2, a - 1)[..k - 1];
    }
  }

  /** Dropping the first k of the low bits of x leaves the low bits of x >> k. */
  lemma {:induction false} LowBitsSuffix(x: nat, a: nat, k: nat)
    requires k <= a
    ensures LowBits(x, a)[k..] == LowBits(x / Pow2(k), a - k)
  {
    if k > 0 {
      LowBitsSuffix(x / 2, a - 1, k - 1);
      assert LowBits(x, a)[k..] == LowBits(x / 2, a - 1)[k - 1..];
      Pow2Step(x, k - 1);
    }
  }

  /** The k-bit code c written most significant bit first, the order in
      which Huffman codes are packed (section 3.1.1 of RFC 1951). */
  function MsbBits(c: nat, k: nat): (r: seq<bool>)
    ensures |r| == k
  {
    if k == 0 then [] else MsbBits(c / 2, k - 1) + [c % 2 == 1]
  }

  lemma {:induction false} MsbRoundTrip(c: nat, k: nat)
    ensures MsbValue(MsbBits(c, k)) == c % Pow2(k)
  {
    if k > 0 {
      MsbRoundTrip(c / 2, k - 1);
      assert MsbBits(c, k)[..k - 1] == MsbBits(c / 2, k - 1);
      Pow2Step(c, k - 1);
    }
  }

  lemma {:induction false} MsbBitsOfValue(bits: seq<bool>)
    ensures MsbBits(MsbValue(bits), |bits|) == bits
  {
    if |bits| > 0 {
      var pre := bits[..|bits| - 1];
      MsbBitsOfValue(pre);
      DivModUnique(MsbValue(bits), 2, MsbValue(pre), Bit(bits[|bits| - 1]));
      assert bits == pre + [bits[|bits| - 1]];
    }
  }

  /** The first j bits of a k-bit code are the code shifted right by k - j. */
  lemma {:induction false} MsbBitsPrefix(c: nat, k: nat, j: nat)
    requires j <= k
    ensures MsbBits(c, k)[..j] == MsbBits(c / Pow2(k - j), j)
    decreases k - j
  {
    if j < k {
      MsbBitsPrefix(c / 2, k - 1, j);
      assert MsbBits(c, k)[..j] == MsbBits(c / 2, k - 1)[..j];
      Pow2Step(c, k - 1 - j);
    } else {
      assert MsbBits(c, k)[..j] == MsbBits(c, k);
    }
  }

  /** Reading one more bit of a code, most significant first. */
  lemma {:induction false} MsbValueSnoc(b: seq<bool>, j: nat)
    requires j < |b|
    ensures MsbValue(b[..j + 1]) == 2 * MsbValue(b[..j]) + Bit(b[j])
  {
    assert b[..j + 1][..j] == b[..j];
  }

  /** `code = (code << 1) | bit` for each bit of bs in turn. */
  function ShiftIn(code: nat, bs: seq<bool>): nat
    decreases |bs|
  {
    if |bs| == 0 then code else ShiftIn(2 * code + Bit(bs[0]), bs[1..])
  }

  /** Shifting bits into the value of a prefix gives the value of the
      whole. */
  lemma {:induction false} ShiftInValue(pre: seq<bool>, bs: seq<bool>)
    ensures ShiftIn(MsbValue(pre), bs) == MsbValue(pre + bs)
    decreases |bs|
  {
    if |bs| > 0 {
      var pre' := pre + [bs[0]];
      MsbValueSnoc(pre', |pre|);
      assert pre'[..|pre|] == pre && pre'[..|pre| + 1] == pre';
      assert MsbValue(pre') == 2 * MsbValue(pre) + Bit(bs[0]);
      assert ShiftIn(MsbValue(pre), bs) == ShiftIn(MsbValue(pre'), bs[1..]);
      ShiftInValue(pre', bs[1..]);
      assert pre' + bs[1..] == pre + bs;
    } else {
      assert pre + bs == pre;
    }
  }

  /** The first j bits of a k-bit code, read back, are the code shifted
      right by k - j. */
  lemma {:induction false} MsbPrefixValue(c: nat, k: nat, j: nat)
    requires j <= k && c < Pow2(k)
    ensures MsbValue(MsbBits(c, k)[..j]) == c / Pow2(k - j)
  {
    var p, q := Pow2(k - j), Pow2(j);
    MsbBitsPrefix(c, k, j);
    var v := c / p;
    MsbRoundTrip(v, j);
    Pow2Add(j, k - j);
    DivBelow(c, p, q);
    DivModUnique(v, q, 0, v);
  }

  lemma {:induction false} BytesToBitsSplit(s: seq<byte>, k: nat)
    requires k <= |s|
    ensures BytesToBits(s)[..8 * k] == BytesToBits(s[..k])
    ensures BytesToBits(s)[8 * k..] == BytesToBits(s[k..])
  {
    if k > 0 {
      BytesToBitsSplit(s[1..], k - 1);
      assert s[1..][..k - 1] == s[1..k];
      assert s[1..][k - 1..] == s[k..];
      assert s[..k][1..] == s[1..k];
    }
  }

  /** Bytes survive the trip through the bit stream. */
  lemma {:induction false} BytesRoundTrip(s: seq<byte>)
    ensures BitsToBytes(BytesToBits(s)) == s
  {
    if |s| > 0 {
      var bits := BytesToBits(s);
      assert bits[..8] == LowBits(s[0], 8);
      assert bits[8..] == BytesToBits(s[1..]);
      LsbLowBits(s[0], 8);
      assert Pow2(8) == 256;
      BytesRoundTrip(s[1..]);
    }
  }

  // ---------------------------------------------------------------------
  // The value of a bit read

  /** Bits left in the byte the stream starts in: a stream always ends on a
      byte boundary, so this is fixed by its length (8 when it starts on a
      boundary). */
  function Avail(bits: seq<bool>): (r: nat)
    ensures 1 <= r <= 8
  {
    if |bits| % 8 == 0 then 8 else |bits| % 8
  }

  /** The value of an n-bit read from a stream whose current byte has a
      bits left: a first group of min(n, a) bits, then groups of whole
      bytes, each earlier group landing in higher bits of the result. */
  function ReadGroups(bits: seq<bool>, a: nat, n: nat): nat
    requires 1 <= a <= 8 && n <= |bits|
    decreases n
  {
    if n == 0 then 0
    else if n < a then LsbValue(bits[..n])
    else LsbValue(bits[..a]) * Pow2(n - a) + ReadGroups(bits[a..], 8, n - a)
  }

  /** The value `t2_z__bitreader_read` returns for an n-bit read of the
      stream `bits`. */
  function ReadValue(bits: seq<bool>, n: nat): nat
    requires n <= |bits|
  {
    ReadGroups(bits, Avail(bits), n)
  }

  /** A read of n bits: its value and the rest of the stream, or the error
      the source asserts on (more than 64 bits, or the input runs out). */
  function ReadBits(bits: seq<bool>, n: nat): (r: Result<(nat, seq<bool>)>)
    ensures r.Ok? <==> n <= 64 && n <= |bits|
    ensures r.Ok? ==> r.value.1 == bits[n..] && r.value.0 < Pow2(n)
    ensures r.Err? ==> r.error == (if n > 64 then TooManyBits else BufferExhausted)
  {
    if n > 64 then Err(TooManyBits)
    else if n > |bits| then Err(BufferExhausted)
    else
      ReadGroupsBound(bits, Avail(bits), n);
      Ok((ReadValue(bits, n), bits[n..]))
  }

  lemma {:induction false} MulLe(a: nat, b: nat, c: nat)
    requires a <= b
    ensures a * c <= b * c
  {
  }

  lemma {:induction false} Distribute(p: int, q: int)
    ensures (p - 1) * q == p * q - q
  {
  }

  /** Placing a value below 2^r under a group below 2^a stays below 2^(a+r). */
  lemma {:induction false} BelowProduct(x: nat, y: nat, pa: nat, pr: nat)
    requires x < pa && y < pr
    ensures x * pr + y < pa * pr
  {
    MulLe(x, pa - 1, pr);
    Distribute(pa, pr);
  }

  /** Dividing by p keeps a lower bound that is a multiple of p. */
  lemma {:induction false} DivAtLeast(c: nat, p: nat, x: nat)
    requires p >= 1 && c >= x * p
    ensures c / p >= x
  {
    var q, m := c / p, c % p;
    assert c == q * p + m;
    BelowProduct(q, m, q + 1, p);
    if q < x {
      MulLe(q + 1, x, p);
      assert false;
    }
  }

  /** Dividing by p keeps an upper bound that is a multiple of p. */
  lemma {:induction false} DivBelow(c: nat, p: nat, a: nat)
    requires p >= 1 && c < a * p
    ensures c / p < a
  {
    var q, m := c / p, c % p;
    assert c == q * p + m;
    if q >= a {
      MulLe(a, q, p);
      assert false;
    }
  }

  /** An n-bit read yields a value below 2^n. */
  lemma {:induction false} ReadGroupsBound(bits: seq<bool>, a: nat, n: nat)
    requires 1 <= a <= 8 && n <= |bits|
    ensures ReadGroups(bits, a, n) < Pow2(n)
  {
    if 0 < n < a {
      LsbBound(bits[..n]);
    } else if n >= a {
      LsbBound(bits[..a]);
      ReadGroupsBound(bits[a..], 8, n - a);
      Pow2Add(a, n - a);
      BelowProduct(LsbValue(bits[..a]), ReadGroups(bits[a..], 8, n - a), Pow2(a), Pow2(n - a));
    }
  }

  /** A one-bit read yields the next bit of the stream. */
  lemma {:induction false} ReadOneBit(bits: seq<bool>)
    requires |bits| >= 1
    ensures ReadValue(bits, 1) == Bit(bits[0])
  {
    assert LsbValue(bits[..1]) == Bit(bits[0]) + 2 * LsbValue(bits[..1][1..]);
    assert Pow2(0) == 1;
  }

  /** A read of n <= a bits from a stream that starts with the low a bits of
      c is c mod 2^n, and the stream goes on with the low a - n bits of c >> n. */
  lemma {:induction false} ReadInside(c: nat, a: nat, R: seq<bool>, n: nat)
    requires 1 <= n <= a <= 8
    ensures ReadGroups(LowBits(c, a) + R, a, n) == c % Pow2(n)
    ensures (LowBits(c, a) + R)[n..] == LowBits(c / Pow2(n), a - n) + R
  {
    var bits := LowBits(c, a) + R;
    assert bits[..n] == LowBits(c, a)[..n];
    LowBitsPrefix(c, a, n);
    LsbLowBits(c, n);
    assert bits[n..] == LowBits(c, a)[n..] + R;
    LowBitsSuffix(c, a, n);
    assert Pow2(0) == 1;
  }

  /** A read of n > a bits takes all a bits of c as its highest group. */
  lemma {:induction false} ReadAcross(c: nat, a: nat, R: seq<bool>, n: nat)
    requires 1 <= a < n <= a + |R| && a <= 8
    ensures ReadGroups(LowBits(c, a) + R, a, n) == (c % Pow2(a)) * Pow2(n - a) + ReadGroups(R, 8, n - a)
  {
    var bits := LowBits(c, a) + R;
    assert bits[..a] == LowBits(c, a);
    LsbLowBits(c, a);
    assert bits[a..] == R;
  }

  /** A stream made of the low a bits of a byte and m whole bytes starts
      with a bits available. */
  lemma {:induction false} AvailOf(c: nat, a: nat, R: seq<bool>)
    requires 1 <= a <= 8 && |R| % 8 == 0
    ensures Avail(LowBits(c, a) + R) == a
  {
    var m := |R| / 8;
    DivModUnique(|R|, 8, m, 0);
    if a < 8 {
      DivModUnique(a + 8 * m, 8, m, a);
    } else {
      DivModUnique(a + 8 * m, 8, m + 1, 0);
    }
  }

  /** Six reads of 8, 4, 4, 16, 12 and 4 bits from six bytes: a read of a
      whole byte takes it as is, the halves of a byte come low half first,
      and a read spanning bytes puts the earlier byte in the higher bits. */
  lemma {:induction false} SixReads(s: seq<byte>)
    requires |s| == 6
    ensures var bits := BytesToBits(s);
      && ReadValue(bits, 8) == s[0]
      && ReadValue(bits[8..], 4) == s[1] % 16
      && ReadValue(bits[12..], 4) == s[1] / 16
      && ReadValue(bits[16..], 16) == s[2] as nat * 256 + s[3]
      && ReadValue(bits[32..], 12) == s[4] as nat * 16 + s[5] % 16
      && ReadValue(bits[44..], 4) == s[5] / 16
  {
    var bits := BytesToBits(s);
    var b0, b1, b2, b3, b4 := BytesToBits(s[1..]), BytesToBits(s[2..]), BytesToBits(s[3..]),
      BytesToBits(s[4..]), BytesToBits(s[5..]);
    assert bits == LowBits(s[0], 8) + b0;
    assert b0 == LowBits(s[1], 8) + b1 by { assert s[1..][1..] == s[2..]; }
    assert b1 == LowBits(s[2], 8) + b2 by { assert s[2..][1..] == s[3..]; }
    assert b2 == LowBits(s[3], 8) + b3 by { assert s[3..][1..] == s[4..]; }
    assert b3 == LowBits(s[4], 8) + b4 by { assert s[4..][1..] == s[5..]; }
    assert b4 == LowBits(s[5], 8) + [] by { assert s[5..][1..] == []; }
    ReadWholeByte(s[0], b0);
    assert bits[8..] == b0;
    ReadLowHalf(s[1], b1);
    ReadHighHalf(s[1], b1);
    assert bits[12..] == b0[4..];
    assert bits[16..] == b1;
    assert b1 == LowBits(s[2], 8) + LowBits(s[3], 8) + b3;
    ReadTwoBytes(s[2], s[3], b3);
    assert bits[32..] == b3;
    assert b3 == LowBits(s[4], 8) + LowBits(s[5], 8);
    ReadByteAndHalf(s[4], s[5]);
    assert bits[44..] == b4[4..];
    ReadHighHalf(s[5], []);
  }

  lemma {:induction false} ReadWholeByte(c: byte, R: seq<bool>)
    requires |R| % 8 == 0
    ensures ReadValue(LowBits(c, 8) + R, 8) == c
    ensures (LowBits(c, 8) + R)[8..] == R
  {
    AvailOf(c, 8, R);
    ReadInside(c, 8, R, 8);
    assert Pow2(8) == 256;
    DivModUnique(c, 256, 0, c);
  }

  lemma {:induction false} ReadLowHalf(c: byte, R: seq<bool>)
    requires |R| % 8 == 0
    ensures ReadValue(LowBits(c, 8) + R, 4) == c % 16
  {
    AvailOf(c, 8, R);
    ReadInside(c, 8, R, 4);
    assert Pow2(4) == 16;
  }

  lemma {:induction false} ReadHighHalf(c: byte, R: seq<bool>)
    requires |R| % 8 == 0
    ensures ReadValue((LowBits(c, 8) + R)[4..], 4) == c / 16
  {
    ReadInside(c, 8, R, 4);
    assert Pow2(4) == 16;
    var h := c / 16;
    assert (LowBits(c, 8) + R)[4..] == LowBits(h, 4) + R;
    AvailOf(h, 4, R);
    ReadInside(h, 4, R, 4);
    DivModUnique(h, 16, 0, h);
  }

  lemma {:induction false} ReadTwoBytes(c: byte, d: byte, R: seq<bool>)
    requires |R| % 8 == 0
    ensures ReadValue(LowBits(c, 8) + LowBits(d, 8) + R, 16) == c as nat * 256 + d
  {
    var R' := LowBits(d, 8) + R;
    assert LowBits(c, 8) + LowBits(d, 8) + R == LowBits(c, 8) + R';
    assert |R'| % 8 == 0;
    AvailOf(c, 8, R');
    ReadAcross(c, 8, R', 16);
    assert Pow2(8) == 256;
    DivModUnique(c, 256, 0, c);
    ReadInside(d, 8, R, 8);
    DivModUnique(d, 256, 0, d);
  }

  lemma {:induction false} ReadByteAndHalf(c: byte, d: byte)
    ensures ReadValue(LowBits(c, 8) + LowBits(d, 8), 12) == c as nat * 16 + d % 16
  {
    var R' := LowBits(d, 8);
    AvailOf(c, 8, R');
    ReadAcross(c, 8, R', 12);
    assert Pow2(8) == 256 && Pow2(4) == 16;
    DivModUnique(c, 256, 0, c);
    ReadInside(d, 8, [], 4);
    assert R' + [] == R';
  }

  /** The bit-reader vector of t2_inflate.c:554-578: reading 8, 4, 4, 16, 12
      and 4 bits from "A\xF7\x12\x34\x56\x78" gives 'A', 0x07, 0x0F, 0x1234,
      0x0568 and 0x7. */
  lemma {:induction false} BitReaderVector(s: seq<byte>)
    requires s == [0x41, 0xF7, 0x12, 0x34, 0x56, 0x78]
    ensures var bits := BytesToBits(s);
      && ReadValue(bits, 8) == 0x41
      && ReadValue(bits[8..], 4) == 0x07
      && ReadValue(bits[12..], 4) == 0x0F
      && ReadValue(bits[16..], 16) == 0x1234
      && ReadValue(bits[32..], 12) == 0x0568
      && ReadValue(bits[44..], 4) == 0x7
  {
    SixReads(s);
    assert s[1] == 0xF7 && s[4] == 0x56 && s[5] == 0x78;
    DivModUnique(0xF7, 16, 0x0F, 0x07);
    DivModUnique(0x78, 16, 0x7, 0x8);
  }
}
