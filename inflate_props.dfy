/** Properties of the block decoder: encoders' output that it inverts
    (stored blocks, literal-only Huffman blocks) and the test vector of
    t2_inflate.c:580-595. */
module InflateProperties {
  import opened Common
  import opened Bits
  import opened Cursor
  import opened BitReading
  import opened Huffman
  import opened Lookup
  import opened Fixed
  import opened Inflating

  // ---------------------------------------------------------------------
  // Stored blocks

  /** The bytes of a stored block holding `data`, as the bit reader of
      t2_inflate.c:61-83 reads them back: LEN and NLEN (its complement),
      each with the higher byte first, then the data. */
  function StoredFrame(data: seq<byte>): (r: seq<byte>)
    requires |data| < 65536
    ensures |r| == 4 + |data| && r[4..] == data
  {
    var n := |data|;
    var m := 65535 - n;
    [n / 256, n % 256, m / 256, m % 256] + data
  }

  /** Two bytes c, d followed by whole bytes are read as c * 256 + d. */
  lemma {:induction false} ReadTwo(c: byte, d: byte, rest: seq<byte>)
    ensures ReadBits(BytesToBits([c, d] + rest), 16) == Ok((c as nat * 256 + d, BytesToBits(rest)))
  {
    var s := [c, d] + rest;
    var R := BytesToBits(rest);
    assert s[1..] == [d] + rest && s[1..][1..] == rest;
    assert BytesToBits(s) == LowBits(c, 8) + LowBits(d, 8) + R;
    ReadTwoBytes(c, d, R);
  }

  /** LEN and its complement NLEN, as StoredFrame writes them, are
      accepted by the header check. */
  lemma {:induction false} HeaderOf(a: byte, b: byte, c: byte, d: byte, rest: seq<byte>, n: nat)
    requires a as nat * 256 + b == n && c as nat * 256 + d == 65535 - n
    ensures StoredHeader(BytesToBits([a, b] + ([c, d] + rest))) == Ok((n, BytesToBits(rest)))
  {
    var bits := BytesToBits([a, b] + ([c, d] + rest));
    assert bits[|bits| % 8..] == bits;
    ReadTwo(a, b, [c, d] + rest);
    ReadTwo(c, d, rest);
  }

  /** The bytes of LEN and NLEN for a length below 65536. */
  lemma {:induction false} LengthBytes(n: nat)
    requires n < 65536
    ensures n / 256 < 256 && (65535 - n) / 256 < 256
    ensures (n / 256) * 256 + n % 256 == n
    ensures ((65535 - n) / 256) * 256 + (65535 - n) % 256 == 65535 - n
  {
  }

  /** The bytes of a stored frame followed by a tail, grouped as the
      header reads them. */
  lemma {:induction false} FrameBytes(data: seq<byte>, tail: seq<byte>)
    requires |data| < 65536
    ensures StoredFrame(data) + tail
      == [|data| / 256, |data| % 256] + ([(65535 - |data|) / 256, (65535 - |data|) % 256] + (data + tail))
  {
    LengthBytes(|data|);
  }

  /** The header of a stored frame reads the length of its data. */
  lemma {:induction false} FrameHeader(data: seq<byte>, tail: seq<byte>)
    requires |data| < 65536
    ensures StoredHeader(BytesToBits(StoredFrame(data) + tail)) == Ok((|data|, BytesToBits(data + tail)))
  {
    FrameBytes(data, tail);
    HeaderFor(|data|, data + tail, StoredFrame(data) + tail);
  }

  /** The same for the bytes of LEN and NLEN written out. */
  lemma {:induction false} HeaderFor(n: nat, rest: seq<byte>, s: seq<byte>)
    requires n < 65536
    requires s == [n / 256, n % 256] + ([(65535 - n) / 256, (65535 - n) % 256] + rest)
    ensures StoredHeader(BytesToBits(s)) == Ok((n, BytesToBits(rest)))
  {
    LengthBytes(n);
    HeaderOf(n / 256, n % 256, (65535 - n) / 256, (65535 - n) % 256, rest, n);
  }

  /** A stored block whose header reads `len` copies the bytes after it. */
  lemma {:induction false} StoredAfterHeader(bits: seq<bool>, len: nat, rest: seq<bool>, out: seq<byte>, cap: nat)
    requires |out| <= cap && StoredHeader(bits) == Ok((len, rest))
    ensures StoredBlock(bits, out, cap) == StoredBytes(rest, len, out, cap)
  {
  }

  /** The data bytes after the header are copied, leaving the tail. */
  lemma {:induction false} StoredData(data: seq<byte>, tail: seq<byte>, out: seq<byte>, cap: nat)
    requires |out| + |data| <= cap
    ensures StoredBytes(BytesToBits(data + tail), |data|, out, cap) == Ok((out + data, BytesToBits(tail)))
  {
    var n := |data|;
    StoredBytesOf(data + tail, n);
    assert (data + tail)[..n] == data && (data + tail)[n..] == tail;
  }

  /** A stored block written by StoredFrame, with anything after it,
      reads back as its data with the bytes after it still to come. */
  lemma {:induction false} StoredRoundTrip(data: seq<byte>, tail: seq<byte>, out: seq<byte>, cap: nat)
    requires |data| < 65536 && |out| + |data| <= cap
    ensures StoredBlock(BytesToBits(StoredFrame(data) + tail), out, cap) == Ok((out + data, BytesToBits(tail)))
  {
    FrameHeader(data, tail);
    StoredAfterHeader(BytesToBits(StoredFrame(data) + tail), |data|, BytesToBits(data + tail), out, cap);
    StoredData(data, tail, out, cap);
  }

  /** A stream of one final stored block (header bits 1, 0, 0 in the low
      bits of the first byte, the other five bits dropped by the flush)
      inflates to its data. */
  lemma {:induction false} InflateStored(data: seq<byte>, cap: nat)
    requires |data| < 65536 && |data| <= cap
    ensures Inflate([1] + StoredFrame(data), cap) == Ok(data)
  {
    var frame := StoredFrame(data);
    var R := BytesToBits(frame);
    var bits := BytesToBits([1] + frame);
    assert ([1] + frame)[1..] == frame;
    assert bits == LowBits(1, 8) + R;
    AvailOf(1, 8, R);
    ReadInside(1, 8, R, 3);
    assert Pow2(3) == 8;
    assert ReadBits(bits, 3) == Ok((1, LowBits(0, 5) + R));
    var rest := LowBits(0, 5) + R;
    assert |rest| % 8 == 5 by {
      DivModUnique(|rest|, 8, |frame|, 5);
    }
    assert rest[|rest| % 8..] == R;
    assert frame + [] == frame;
    StoredRoundTrip(data, [], [], cap);
    assert Block(0, rest, [], cap) == Ok(([] + data, BytesToBits([])));
  }

  // ---------------------------------------------------------------------
  // Literal-only Huffman blocks

  /** Every byte of `data` has a code. */
  predicate Coded(lens: seq<nat>, data: seq<byte>)
    decreases |data|
  {
    |data| == 0 || (|lens| > data[0] && lens[data[0]] != 0 && Coded(lens, data[1..]))
  }

  /** An encoder that writes every byte as a literal: the codes of the
      bytes, one after another. */
  function LiteralBits(lens: seq<nat>, data: seq<byte>): (r: seq<bool>)
    requires Coded(lens, data)
    decreases |data|
  {
    if |data| == 0 then [] else CodeBits(lens, data[0]) + LiteralBits(lens, data[1..])
  }

  /** With a literal/length code whose lengths fit, the literals of `data`
      and the end-of-block code decode to `data` appended to the output,
      the bits after them left over. */
  lemma {:induction false} LiteralsRoundTrip(lens: seq<nat>, dist: Table, data: seq<byte>, rest: seq<bool>, out: seq<byte>, cap: nat)
    requires LengthsInRange(lens) && Fits(lens) && |lens| > 256 && lens[256] != 0
    requires Coded(lens, data) && WellShaped(dist)
    requires |out| + |data| <= cap
    ensures DecodeBlock(Codes(Canonical(lens), dist), LiteralBits(lens, data) + (CodeBits(lens, 256) + rest), out, cap)
      == Ok((out + data, rest))
    decreases |data|
  {
    var codes := Codes(Canonical(lens), dist);
    var bits := LiteralBits(lens, data) + (CodeBits(lens, 256) + rest);
    if |data| == 0 {
      assert bits == CodeBits(lens, 256) + rest;
      EndStep(lens, dist, rest, out, cap);
      BlockEnds(codes, bits, out, cap);
      assert out + data == out;
    } else {
      var b := data[0];
      var tail := LiteralBits(lens, data[1..]) + (CodeBits(lens, 256) + rest);
      LiteralBitsCons(lens, data, CodeBits(lens, 256) + rest);
      LiteralStep(lens, dist, b, tail, out, cap);
      BlockGoesOn(codes, bits, out, cap);
      LiteralsRoundTrip(lens, dist, data[1..], rest, out + [b], cap);
      AppendFirst(out, data);
    }
  }

  lemma {:induction false} AppendFirst(out: seq<byte>, data: seq<byte>)
    requires |data| > 0
    ensures out + [data[0]] + data[1..] == out + data
  {
    assert [data[0]] + data[1..] == data;
  }

  /** The literals of a nonempty `data` start with the code of its first
      byte. */
  lemma {:induction false} LiteralBitsCons(lens: seq<nat>, data: seq<byte>, after: seq<bool>)
    requires Coded(lens, data) && |data| > 0
    ensures Coded(lens, data[1..]) && lens[data[0]] != 0
    ensures LiteralBits(lens, data) + after == CodeBits(lens, data[0]) + (LiteralBits(lens, data[1..]) + after)
  {
  }

  /** A block goes on after a symbol that does not end it. */
  lemma {:induction false} BlockGoesOn(codes: Codes, bits: seq<bool>, out: seq<byte>, cap: nat)
    requires CodesShaped(codes) && |out| <= cap
    requires BlockStep(codes, bits, out, cap).Ok? && !BlockStep(codes, bits, out, cap).value.done
    ensures var step := BlockStep(codes, bits, out, cap).value;
      DecodeBlock(codes, bits, out, cap) == DecodeBlock(codes, step.rest, step.out, cap)
  {
  }

  /** A block fails where one of its symbols fails. */
  lemma {:induction false} BlockFails(codes: Codes, bits: seq<bool>, out: seq<byte>, cap: nat)
    requires CodesShaped(codes) && |out| <= cap
    requires BlockStep(codes, bits, out, cap).Err?
    ensures DecodeBlock(codes, bits, out, cap) == Err(BlockStep(codes, bits, out, cap).error)
  {
  }

  /** A block ends at the end-of-block symbol. */
  lemma {:induction false} BlockEnds(codes: Codes, bits: seq<bool>, out: seq<byte>, cap: nat)
    requires CodesShaped(codes) && |out| <= cap
    requires BlockStep(codes, bits, out, cap).Ok? && BlockStep(codes, bits, out, cap).value.done
    ensures var step := BlockStep(codes, bits, out, cap).value;
      DecodeBlock(codes, bits, out, cap) == Ok((out, step.rest))
  {
  }

  /** The end-of-block code ends the block. */
  lemma {:induction false} EndStep(lens: seq<nat>, dist: Table, rest: seq<bool>, out: seq<byte>, cap: nat)
    requires LengthsInRange(lens) && Fits(lens) && |lens| > 256 && lens[256] != 0
    requires WellShaped(dist) && |out| <= cap
    ensures BlockStep(Codes(Canonical(lens), dist), CodeBits(lens, 256) + rest, out, cap) == Ok(Step(true, out, rest))
  {
    DecodeCodeBits(lens, 256, rest);
  }

  /** The code of a byte appends it to the output when there is room. */
  lemma {:induction false} LiteralStep(lens: seq<nat>, dist: Table, b: byte, rest: seq<bool>, out: seq<byte>, cap: nat)
    requires LengthsInRange(lens) && Fits(lens) && |lens| > 256 && lens[b] != 0
    requires WellShaped(dist) && |out| <= cap
    ensures BlockStep(Codes(Canonical(lens), dist), CodeBits(lens, b) + rest, out, cap)
      == if |out| < cap then Ok(Step(false, out + [b], rest)) else Err(BufferOverflow)
  {
    DecodeCodeBits(lens, b, rest);
  }

  /** The code of a symbol above 285, which names neither a byte, the end
      of the block nor a length, stops the block with InvalidSymbol. */
  lemma {:induction false} HighSymbolStep(lens: seq<nat>, dist: Table, s: nat, rest: seq<bool>, out: seq<byte>, cap: nat)
    requires LengthsInRange(lens) && Fits(lens) && 286 <= s < |lens| && lens[s] != 0
    requires WellShaped(dist) && |out| <= cap
    ensures BlockStep(Codes(Canonical(lens), dist), CodeBits(lens, s) + rest, out, cap) == Err(InvalidSymbol)
    ensures DecodeBlock(Codes(Canonical(lens), dist), CodeBits(lens, s) + rest, out, cap) == Err(InvalidSymbol)
  {
    DecodeCodeBits(lens, s, rest);
    BlockFails(Codes(Canonical(lens), dist), CodeBits(lens, s) + rest, out, cap);
  }

  /** The fixed code has codes for symbols 286 and 287; a fixed block
      that reaches one fails. */
  lemma {:induction false} FixedHighSymbol(s: nat, rest: seq<bool>, out: seq<byte>, cap: nat)
    requires s == 286 || s == 287
    requires |out| <= cap
    ensures FixedLiteralLengths[s] == 8
    ensures Block(1, CodeBits(FixedLiteralLengths, s) + rest, out, cap) == Err(InvalidSymbol)
  {
    FixedLiteralCanonical();
    HighSymbolStep(FixedLiteralLengths, Canonical(FixedDistanceLengths), s, rest, out, cap);
  }

  /** The extra bits at the head of `bits` carry the offset of `len` from
      the base of its length symbol. */
  predicate CarriesLength(len: nat, bits: seq<bool>)
    requires 3 <= len <= 258
  {
    var i := LengthSymbol(len) - 257;
    LengthExtra[i] <= |bits| && ReadValue(bits, LengthExtra[i]) == len - LengthBase[i]
  }

  /** The extra bits at the head of `bits` carry the offset of `d` from
      the base of its distance symbol. */
  predicate CarriesDistance(d: nat, bits: seq<bool>)
    requires 1 <= d <= 32768
  {
    var s := DistanceSymbol(d);
    DistanceExtra[s] <= |bits| && ReadValue(bits, DistanceExtra[s]) == d - DistanceBase[s]
  }

  /** A length/distance pair: the code of the symbol of `len`, its extra
      bits, the code of the symbol of `d` and its extra bits copy `len`
      bytes from `d` bytes back; a distance past the start of the output
      is InvalidDistance and a copy past the end of the buffer is
      BufferOverflow. */
  lemma {:induction false} MatchStep(lens: seq<nat>, dlens: seq<nat>, len: nat, d: nat, b1: seq<bool>, b2: seq<bool>, out: seq<byte>, cap: nat)
    requires LengthsInRange(lens) && Fits(lens) && |lens| > 285
    requires LengthsInRange(dlens) && Fits(dlens) && |dlens| >= 30
    requires 3 <= len <= 258 && 1 <= d <= 32768 && |out| <= cap
    requires lens[LengthSymbol(len)] != 0 && dlens[DistanceSymbol(d)] != 0
    requires CarriesLength(len, b1)
    requires b1[LengthExtra[LengthSymbol(len) - 257]..] == CodeBits(dlens, DistanceSymbol(d)) + b2
    requires CarriesDistance(d, b2)
    ensures BlockStep(Codes(Canonical(lens), Canonical(dlens)), CodeBits(lens, LengthSymbol(len)) + b1, out, cap)
      == if d > |out| then Err(InvalidDistance)
         else if |out| + len > cap then Err(BufferOverflow)
         else Ok(Step(false, Repeat(out, d, len), b2[DistanceExtra[DistanceSymbol(d)]..]))
  {
    var codes := Codes(Canonical(lens), Canonical(dlens));
    var ls, ds := LengthSymbol(len), DistanceSymbol(d);
    var rest := b2[DistanceExtra[ds]..];
    DecodeCodeBits(lens, ls, b1);
    LengthRoundTrip(len, b1);
    DecodeCodeBits(dlens, ds, b2);
    DistanceRoundTrip(d, b2);
    assert MatchOf(codes, ls, b1) == Ok((len, d, rest));
    CopyMatchOf(codes, ls, b1, out, cap, len, d, rest);
  }

  /** A block holding one length/distance pair and the end-of-block code
      decodes to the copy. */
  lemma {:induction false} MatchBlock(lens: seq<nat>, dlens: seq<nat>, len: nat, d: nat, b1: seq<bool>, b2: seq<bool>, rest: seq<bool>, out: seq<byte>, cap: nat)
    requires LengthsInRange(lens) && Fits(lens) && |lens| > 285 && lens[256] != 0
    requires LengthsInRange(dlens) && Fits(dlens) && |dlens| >= 30
    requires 3 <= len <= 258 && 1 <= d <= 32768 && d <= |out| && |out| + len <= cap
    requires lens[LengthSymbol(len)] != 0 && dlens[DistanceSymbol(d)] != 0
    requires CarriesLength(len, b1)
    requires b1[LengthExtra[LengthSymbol(len) - 257]..] == CodeBits(dlens, DistanceSymbol(d)) + b2
    requires CarriesDistance(d, b2)
    requires b2[DistanceExtra[DistanceSymbol(d)]..] == CodeBits(lens, 256) + rest
    ensures DecodeBlock(Codes(Canonical(lens), Canonical(dlens)), CodeBits(lens, LengthSymbol(len)) + b1, out, cap)
      == Ok((Repeat(out, d, len), rest))
  {
    var codes := Codes(Canonical(lens), Canonical(dlens));
    var bits := CodeBits(lens, LengthSymbol(len)) + b1;
    MatchStep(lens, dlens, len, d, b1, b2, out, cap);
    BlockGoesOn(codes, bits, out, cap);
    EndStep(lens, Canonical(dlens), rest, Repeat(out, d, len), cap);
    BlockEnds(codes, CodeBits(lens, 256) + rest, Repeat(out, d, len), cap);
  }

  /** A literal that does not fit in the output buffer stops the block
      with BufferOverflow. */
  lemma {:induction false} LiteralsOverflow(lens: seq<nat>, dist: Table, data: seq<byte>, rest: seq<bool>, out: seq<byte>, cap: nat)
    requires LengthsInRange(lens) && Fits(lens) && |lens| > 256 && lens[256] != 0
    requires Coded(lens, data) && WellShaped(dist)
    requires |out| <= cap < |out| + |data|
    ensures DecodeBlock(Codes(Canonical(lens), dist), LiteralBits(lens, data) + (CodeBits(lens, 256) + rest), out, cap)
      == Err(BufferOverflow)
    decreases |data|
  {
    var b := data[0];
    var tail := LiteralBits(lens, data[1..]) + (CodeBits(lens, 256) + rest);
    LiteralBitsCons(lens, data, CodeBits(lens, 256) + rest);
    LiteralStep(lens, dist, b, tail, out, cap);
    var bits := LiteralBits(lens, data) + (CodeBits(lens, 256) + rest);
    var codes := Codes(Canonical(lens), dist);
    if |out| < cap {
      BlockGoesOn(codes, bits, out, cap);
      LiteralsOverflow(lens, dist, data[1..], rest, out + [b], cap);
    } else {
      BlockFails(codes, bits, out, cap);
    }
  }

  /** The fixed literal/length table is the canonical table of the fixed
      lengths, under which every byte and the end of block have codes. */
  lemma {:induction false} FixedLiteralCanonical()
    ensures FixedCodes().literal == Canonical(FixedLiteralLengths)
    ensures LengthsInRange(FixedLiteralLengths) && Fits(FixedLiteralLengths)
    ensures forall b: byte :: FixedLiteralLengths[b] != 0
    ensures FixedLiteralLengths[256] != 0
  {
    HandWrittenIsCanonical();
    FixedLiteralFits();
  }

  /** A block with fixed codes holding only literals decodes to them. */
  lemma {:induction false} FixedLiteralsRoundTrip(data: seq<byte>, rest: seq<bool>, out: seq<byte>, cap: nat)
    requires |out| + |data| <= cap
    ensures Coded(FixedLiteralLengths, data)
    ensures Block(1, LiteralBits(FixedLiteralLengths, data) + (CodeBits(FixedLiteralLengths, 256) + rest), out, cap)
      == Ok((out + data, rest))
  {
    FixedLiteralCanonical();
    FixedCoded(data);
    LiteralsRoundTrip(FixedLiteralLengths, Canonical(FixedDistanceLengths), data, rest, out, cap);
  }

  /** The same, decoding into an empty output. */
  lemma {:induction false} FixedLiteralsAlone(data: seq<byte>, rest: seq<bool>, cap: nat)
    requires |data| <= cap
    ensures Coded(FixedLiteralLengths, data)
    ensures Block(1, LiteralBits(FixedLiteralLengths, data) + (CodeBits(FixedLiteralLengths, 256) + rest), [], cap)
      == Ok((data, rest))
  {
    FixedLiteralsRoundTrip(data, rest, [], cap);
    assert [] + data == data;
  }

  /** Every byte has a fixed code. */
  lemma {:induction false} FixedCoded(data: seq<byte>)
    ensures Coded(FixedLiteralLengths, data)
    decreases |data|
  {
    if |data| > 0 {
      assert FixedLiteralLengths[data[0]] == FixedLiteralLength(data[0]);
      FixedCoded(data[1..]);
    }
  }

  // ---------------------------------------------------------------------
  // The test vector

  /** The fixed-code literals of "foo" and the end of block, as bits. */
  lemma {:induction false} FooBits(after: seq<bool>)
    ensures Coded(FixedLiteralLengths, [102, 111, 111])
    ensures LiteralBits(FixedLiteralLengths, [102, 111, 111]) + (CodeBits(FixedLiteralLengths, 256) + after)
      == MsbBits(150, 8) + (MsbBits(159, 8) + (MsbBits(159, 8) + (MsbBits(0, 7) + after)))
  {
    var lens := FixedLiteralLengths;
    var foo: seq<byte> := [102, 111, 111];
    CodesLow8(102);
    CodesLow8(111);
    Codes7(256);
    FixedCoded(foo);
    var e := CodeBits(lens, 256) + after;
    assert foo[1..] == [111, 111] && foo[1..][1..] == [111] && foo[1..][1..][1..] == [];
    LiteralBitsCons(lens, foo, e);
    LiteralBitsCons(lens, foo[1..], e);
    LiteralBitsCons(lens, foo[1..][1..], e);
    assert LiteralBits(lens, []) + e == e;
  }

  const FooPadding: seq<bool> := [false, false, false, false, false, false]

  lemma {:induction false} BytesCons(c: byte, rest: seq<byte>)
    ensures BytesToBits([c] + rest) == LowBits(c, 8) + BytesToBits(rest)
  {
    assert ([c] + rest)[1..] == rest;
  }

  /** The bits of the test input, byte by byte. */
  lemma {:induction false} FooBytes()
    ensures BytesToBits([75, 203, 207, 7, 0])
      == LowBits(75, 8) + (LowBits(203, 8) + (LowBits(207, 8) + (LowBits(7, 8) + LowBits(0, 8))))
  {
    BytesCons(0, []);
    BytesCons(7, [0]);
    BytesCons(207, [7, 0]);
    BytesCons(203, [207, 7, 0]);
    BytesCons(75, [203, 207, 7, 0]);
    assert LowBits(0, 8) + [] == LowBits(0, 8);
  }

  /** Moving the first k bits of X to the group before it. */
  lemma {:induction false} Regroup(a: seq<bool>, X: seq<bool>, R: seq<bool>, k: nat)
    requires k <= |X|
    ensures a + (X + R) == (a + X[..k]) + (X[k..] + R)
  {
    assert X == X[..k] + X[k..];
  }

  /** Codes of 8, 8, 8 and at least 5 bits, regrouped into the bytes
      they fill after a 3-bit header. */
  lemma {:induction false} RegroupCodes(c1: seq<bool>, c2: seq<bool>, c3: seq<bool>, c4: seq<bool>, pad: seq<bool>)
    requires |c1| == 8 && |c2| == 8 && |c3| == 8 && |c4| >= 5
    ensures c1 + (c2 + (c3 + (c4 + pad)))
      == c1[..5] + ((c1[5..] + c2[..5]) + ((c2[5..] + c3[..5]) + ((c3[5..] + c4[..5]) + (c4[5..] + pad))))
  {
    Regroup([], c1, c2 + (c3 + (c4 + pad)), 5);
    Regroup(c1[5..], c2, c3 + (c4 + pad), 5);
    Regroup(c2[5..], c3, c4 + pad, 5);
    Regroup(c3[5..], c4, pad, 5);
    assert [] + c1[..5] == c1[..5];
  }

  lemma {:induction false} Code150()
    ensures MsbBits(150, 8) == [true, false, false, true, false, true, true, false]
  {
  }

  lemma {:induction false} Code159()
    ensures MsbBits(159, 8) == [true, false, false, true, true, true, true, true]
  {
  }

  lemma {:induction false} Code0()
    ensures MsbBits(0, 7) == [false, false, false, false, false, false, false]
  {
  }

  lemma {:induction false} FooChunk0()
    ensures MsbBits(150, 8)[..5] == LowBits(9, 5)
  {
    Code150();
    assert LowBits(9, 5) == [true, false, false, true, false];
  }

  lemma {:induction false} FooChunk1()
    ensures MsbBits(150, 8)[5..] + MsbBits(159, 8)[..5] == LowBits(203, 8)
  {
    Code150();
    Code159();
    assert LowBits(203, 8) == [true, true, false] + [true, false, false, true, true];
  }

  lemma {:induction false} FooChunk2()
    ensures MsbBits(159, 8)[5..] + MsbBits(159, 8)[..5] == LowBits(207, 8)
  {
    Code159();
    assert LowBits(207, 8) == [true, true, true] + [true, false, false, true, true];
  }

  lemma {:induction false} FooChunk3()
    ensures MsbBits(159, 8)[5..] + MsbBits(0, 7)[..5] == LowBits(7, 8)
  {
    Code159();
    Code0();
    assert LowBits(7, 8) == [true, true, true] + [false, false, false, false, false];
  }

  lemma {:induction false} FooChunk4()
    ensures MsbBits(0, 7)[5..] + FooPadding == LowBits(0, 8)
  {
    Code0();
    assert LowBits(0, 8) == [false, false] + FooPadding;
  }

  /** After the three header bits of the first byte, the codes of "foo",
      the end of block and the padding are the rest of the input. */
  lemma {:induction false} FooCodes()
    ensures MsbBits(150, 8) + (MsbBits(159, 8) + (MsbBits(159, 8) + (MsbBits(0, 7) + FooPadding)))
      == LowBits(9, 5) + (LowBits(203, 8) + (LowBits(207, 8) + (LowBits(7, 8) + LowBits(0, 8))))
  {
    RegroupCodes(MsbBits(150, 8), MsbBits(159, 8), MsbBits(159, 8), MsbBits(0, 7), FooPadding);
    FooChunk0();
    FooChunk1();
    FooChunk2();
    FooChunk3();
    FooChunk4();
  }

  /** The header of the test input: 3 (final, fixed codes) from the low
      three bits of 75, which leave 75 >> 3 == 9 in five bits. */
  lemma {:induction false} FooHeader(R: seq<bool>)
    requires |R| == 32
    ensures ReadBits(LowBits(75, 8) + R, 3) == Ok((3, LowBits(9, 5) + R))
  {
    assert |R| % 8 == 0;
    AvailOf(75, 8, R);
    ReadInside(75, 8, R, 3);
    assert Pow2(3) == 8;
  }

  /** A final block that decodes ends the stream. */
  lemma {:induction false} FinalBlock(bits: seq<bool>, out: seq<byte>, cap: nat, header: nat, rest: seq<bool>, out': seq<byte>, rest': seq<bool>)
    requires |out| <= cap && ReadBits(bits, 3) == Ok((header, rest)) && header % 2 == 1
    requires Block((header / 2) % 4, rest, out, cap) == Ok((out', rest'))
    ensures InflateBlocks(bits, out, cap) == Ok((out', rest'))
  {
  }

  lemma {:induction false} HeaderThree()
    ensures (3 / 2) % 4 == 1 && 3 % 2 == 1
  {
  }

  /** A final block with fixed codes (header 3) that decodes ends the
      stream. */
  lemma {:induction false} FinalFixedBlock(bits: seq<bool>, out: seq<byte>, cap: nat, rest: seq<bool>, out': seq<byte>, rest': seq<bool>)
    requires |out| <= cap && ReadBits(bits, 3) == Ok((3, rest))
    requires Block(1, rest, out, cap) == Ok((out', rest'))
    ensures InflateBlocks(bits, out, cap) == Ok((out', rest'))
  {
    HeaderThree();
    FinalBlock(bits, out, cap, 3, rest, out', rest');
  }

  /** The codes of "foo" and the end of block form a block with fixed
      codes that decodes to "foo". */
  lemma {:induction false} FooCodedBlock()
    ensures Block(1, MsbBits(150, 8) + (MsbBits(159, 8) + (MsbBits(159, 8) + (MsbBits(0, 7) + FooPadding))), [], 4096)
         == Ok(([102, 111, 111], FooPadding))
  {
    var foo: seq<byte> := [102, 111, 111];
    FooBits(FooPadding);
    FixedLiteralsAlone(foo, FooPadding, 4096);
  }

  /** After the header, the rest of the test input is a block with fixed
      codes holding "foo". */
  lemma {:induction false} FooBlock()
    ensures Block(1, LowBits(9, 5) + (LowBits(203, 8) + (LowBits(207, 8) + (LowBits(7, 8) + LowBits(0, 8)))), [], 4096)
         == Ok(([102, 111, 111], FooPadding))
  {
    FooCodedBlock();
    FooCodes();
  }

  /** The test of t2_inflate.c:580-590: the five bytes 75, 203, 207, 7, 0
      (one final block with fixed codes) inflate to "foo". */
  lemma {:induction false} InflateFoo()
    ensures Inflate([75, 203, 207, 7, 0], 4096) == Ok([102, 111, 111])
  {
    var R := LowBits(203, 8) + (LowBits(207, 8) + (LowBits(7, 8) + LowBits(0, 8)));
    FooBytes();
    FooHeader(R);
    FooBlock();
    FinalFixedBlock(BytesToBits([75, 203, 207, 7, 0]), [], 4096, LowBits(9, 5) + R, [102, 111, 111], FooPadding);
  }
}
