/** The length and distance lookups `t2_z__decode_length` and
    `t2_z__decode_distance` (t2_inflate.c:385-456): a symbol selects a base
    value and a number of extra bits, and the extra bits, read from the
    stream, are added to the base.  The tables are those of section 3.2.5
    of RFC 1951. */
module Lookup {
  import opened Common
  import opened Bits
  import opened BitReading

  /** Base lengths of the length symbols 257..285. */
  const LengthBase: seq<nat> :=
    [3, 4, 5, 6, 7, 8, 9, 10, 11, 13, 15, 17, 19, 23, 27, 31,
     35, 43, 51, 59, 67, 83, 99, 115, 131, 163, 195, 227, 258]

  /** Extra bits of the length symbols 257..285. */
  const LengthExtra: seq<nat> :=
    [0, 0, 0, 0, 0, 0, 0, 0, 1, 1, 1, 1, 2, 2, 2, 2,
     3, 3, 3, 3, 4, 4, 4, 4, 5, 5, 5, 5, 0]

  /** Base distances of the distance symbols 0..29. */
  const DistanceBase: seq<nat> :=
    [1, 2, 3, 4, 5, 7, 9, 13, 17, 25, 33, 49, 65, 97, 129, 193,
     257, 385, 513, 769, 1025, 1537, 2049, 3073, 4097, 6145,
     8193, 12289, 16385, 24577]

  /** Extra bits of the distance symbols 0..29. */
  const DistanceExtra: seq<nat> :=
    [0, 0, 0, 0, 1, 1, 2, 2, 3, 3, 4, 4, 5, 5, 6, 6,
     7, 7, 8, 8, 9, 9, 10, 10, 11, 11, 12, 12, 13, 13]

  /** The powers of two the tables use. */
  lemma {:induction false} Pow2Table()
    ensures Pow2(0) == 1 && Pow2(1) == 2 && Pow2(2) == 4 && Pow2(3) == 8
    ensures Pow2(4) == 16 && Pow2(5) == 32 && Pow2(6) == 64 && Pow2(7) == 128
    ensures Pow2(8) == 256 && Pow2(9) == 512 && Pow2(10) == 1024
    ensures Pow2(11) == 2048 && Pow2(12) == 4096 && Pow2(13) == 8192
  {
    assert Pow2(1) == 2;
    assert Pow2(2) == 4;
    assert Pow2(3) == 8;
    assert Pow2(4) == 16;
    assert Pow2(5) == 32;
    assert Pow2(6) == 64;
    assert Pow2(7) == 128;
    assert Pow2(8) == 256;
    assert Pow2(9) == 512;
    assert Pow2(10) == 1024;
    assert Pow2(11) == 2048;
    assert Pow2(12) == 4096;
  }

  /** Every length symbol's range lies within 3..258. */
  lemma {:induction false} LengthRanges()
    ensures forall i :: 0 <= i < 29 ==> 3 <= LengthBase[i] && LengthBase[i] + Pow2(LengthExtra[i]) <= 259
    ensures forall i :: 0 <= i < 8 ==> LengthBase[i] == i + 3 && LengthExtra[i] == 0
    ensures LengthExtra[28] == 0
  {
    Pow2Table();
  }

  /** Every distance symbol's range lies within 1..32768. */
  lemma {:induction false} DistanceRanges()
    ensures forall i :: 0 <= i < 30 ==> 1 <= DistanceBase[i] && DistanceBase[i] + Pow2(DistanceExtra[i]) <= 32769
    ensures forall i :: 0 <= i < 4 ==> DistanceBase[i] == i + 1 && DistanceExtra[i] == 0
  {
    Pow2Table();
  }

  /** The length symbol `sym` with the stream `bits` after it: the length
      and the rest of the stream.  Symbols outside 257..285 fail. */
  function LengthOf(sym: nat, bits: seq<bool>): (r: Result<(nat, seq<bool>)>)
    ensures r.Ok? <==> 257 <= sym <= 285 && LengthExtra[sym - 257] <= |bits|
    ensures (sym < 257 || sym > 285) ==> r == Err(InvalidLengthSymbol)
    ensures 257 <= sym <= 264 ==> r == Ok((sym - 254, bits))
    ensures sym == 285 ==> r == Ok((258, bits))
    ensures r.Ok? ==> 3 <= r.value.0 <= 258 && r.value.1 == bits[LengthExtra[sym - 257]..]
    ensures r.Err? && 257 <= sym <= 285 ==> r.error == BufferExhausted
  {
    if sym < 257 || sym > 285 then Err(InvalidLengthSymbol)
    else
      var i := sym - 257;
      match ReadBits(bits, LengthExtra[i])
      case Err(e) => Err(e)
      case Ok((v, rest)) =>
        LengthRanges();
        assert bits[0..] == bits;
        Ok((LengthBase[i] + v, rest))
  }

  /** The distance symbol `sym` with the stream `bits` after it: the
      distance and the rest of the stream.  Symbols 30 and above fail. */
  function DistanceOf(sym: nat, bits: seq<bool>): (r: Result<(nat, seq<bool>)>)
    ensures r.Ok? <==> sym <= 29 && DistanceExtra[sym] <= |bits|
    ensures sym > 29 ==> r == Err(InvalidDistanceSymbol)
    ensures sym <= 3 ==> r == Ok((sym + 1, bits))
    ensures r.Ok? ==> 1 <= r.value.0 <= 32768 && r.value.1 == bits[DistanceExtra[sym]..]
    ensures r.Err? && sym <= 29 ==> r.error == BufferExhausted
  {
    if sym > 29 then Err(InvalidDistanceSymbol)
    else
      match ReadBits(bits, DistanceExtra[sym])
      case Err(e) => Err(e)
      case Ok((v, rest)) =>
        DistanceRanges();
        assert bits[0..] == bits;
        Ok((DistanceBase[sym] + v, rest))
  }

  /** The length symbols' ranges follow one another without gaps: symbol
      i + 1 starts where the 2^extra values of symbol i end, and symbol
      284's range reaches 258, the length of symbol 285. */
  lemma {:induction false} LengthsContiguous()
    ensures forall i :: 0 <= i < 27 ==> LengthBase[i + 1] == LengthBase[i] + Pow2(LengthExtra[i])
    ensures LengthBase[27] + Pow2(LengthExtra[27]) - 1 == LengthBase[28] == 258
    ensures LengthBase[0] == 3
  {
    Pow2Table();
  }

  /** The distance symbols' ranges follow one another without gaps and
      cover 1..32768. */
  lemma {:induction false} DistancesContiguous()
    ensures forall i :: 0 <= i < 29 ==> DistanceBase[i + 1] == DistanceBase[i] + Pow2(DistanceExtra[i])
    ensures DistanceBase[0] == 1 && DistanceBase[29] + Pow2(DistanceExtra[29]) - 1 == 32768
  {
    Pow2Table();
  }

  /** The last index j <= i whose base is at most v. */
  function LastAtMost(bases: seq<nat>, v: nat, i: nat): (j: nat)
    requires i < |bases| && bases[0] <= v
    ensures j <= i && bases[j] <= v
    ensures forall k :: j < k <= i ==> bases[k] > v
  {
    if i == 0 || bases[i] <= v then i else LastAtMost(bases, v, i - 1)
  }

  /** The encoder's direction: the length symbol whose range holds `len`. */
  function LengthSymbol(len: nat): (s: nat)
    requires 3 <= len <= 258
    ensures 257 <= s <= 285
    ensures LengthBase[s - 257] <= len < LengthBase[s - 257] + Pow2(LengthExtra[s - 257])
  {
    LengthsContiguous();
    var j := LastAtMost(LengthBase, len, 28);
    assert j < 28 ==> LengthBase[j + 1] > len;
    257 + j
  }

  /** The encoder's direction: the distance symbol whose range holds `d`. */
  function DistanceSymbol(d: nat): (s: nat)
    requires 1 <= d <= 32768
    ensures s <= 29
    ensures DistanceBase[s] <= d < DistanceBase[s] + Pow2(DistanceExtra[s])
  {
    DistancesContiguous();
    var j := LastAtMost(DistanceBase, d, 29);
    assert j < 29 ==> DistanceBase[j + 1] > d;
    j
  }

  /** Every length 3..258 is decoded from its symbol once the extra bits
      carry its offset from the symbol's base. */
  lemma {:induction false} LengthRoundTrip(len: nat, bits: seq<bool>)
    requires 3 <= len <= 258
    requires var s := LengthSymbol(len);
      LengthExtra[s - 257] <= |bits| && ReadValue(bits, LengthExtra[s - 257]) == len - LengthBase[s - 257]
    ensures var s := LengthSymbol(len);
      LengthOf(s, bits) == Ok((len, bits[LengthExtra[s - 257]..]))
  {
  }

  /** Every distance 1..32768 is decoded from its symbol once the extra
      bits carry its offset from the symbol's base. */
  lemma {:induction false} DistanceRoundTrip(d: nat, bits: seq<bool>)
    requires 1 <= d <= 32768
    requires var s := DistanceSymbol(d);
      DistanceExtra[s] <= |bits| && ReadValue(bits, DistanceExtra[s]) == d - DistanceBase[s]
    ensures var s := DistanceSymbol(d);
      DistanceOf(s, bits) == Ok((d, bits[DistanceExtra[s]..]))
  {
  }

  /** `t2_z__decode_length`: looks the symbol up and reads its extra bits. */
  method DecodeLength(br: BitReader, sym: nat) returns (r: Result<nat>)
    requires br.Valid()
    modifies br, br.buffer
    ensures br.Valid()
    ensures var d := LengthOf(sym, old(br.Stream()));
      && (r.Ok? <==> d.Ok?)
      && (r.Ok? ==> r.value == d.value.0 && br.Stream() == d.value.1)
      && (r.Err? ==> r.error == d.error)
  {
    if sym < 257 || sym > 285 {
      return Err(InvalidLengthSymbol);
    }
    var extra := br.Read(LengthExtra[sym - 257]);
    if extra.Err? {
      return Err(extra.error);
    }
    return Ok(LengthBase[sym - 257] + extra.value);
  }

  /** `t2_z__decode_distance`: looks the symbol up and reads its extra
      bits. */
  method DecodeDistance(br: BitReader, sym: nat) returns (r: Result<nat>)
    requires br.Valid()
    modifies br, br.buffer
    ensures br.Valid()
    ensures var d := DistanceOf(sym, old(br.Stream()));
      && (r.Ok? <==> d.Ok?)
      && (r.Ok? ==> r.value == d.value.0 && br.Stream() == d.value.1)
      && (r.Err? ==> r.error == d.error)
  {
    if sym > 29 {
      return Err(InvalidDistanceSymbol);
    }
    var extra := br.Read(DistanceExtra[sym]);
    if extra.Err? {
      return Err(extra.error);
    }
    return Ok(DistanceBase[sym] + extra.value);
  }
}
