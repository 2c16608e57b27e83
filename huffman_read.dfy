/** `t2_z__huffman_table_read` (t2_inflate.c:159-187) over the bit reader. */
module HuffmanReading {
  import opened Common
  import opened Bits
  import opened BitReading
  import opened Huffman

  /** Takes one bit off the reader. */
  method ReadBit(br: BitReader) returns (r: Result<nat>)
    requires br.Valid()
    modifies br, br.buffer
    ensures br.Valid()
    ensures r.Ok? <==> |old(br.Stream())| > 0
    ensures r.Ok? ==> r.value == Bit(old(br.Stream())[0]) && br.Stream() == old(br.Stream())[1..]
    ensures r.Err? ==> r.error == BufferExhausted
  {
    ghost var s := br.Stream();
    r := br.Read(1);
    if r.Ok? {
      ReadOneBit(s);
    }
  }

  /** The first loop of the read: n bits, most significant first. */
  method ReadCode(br: BitReader, n: nat) returns (r: Result<nat>)
    requires br.Valid()
    modifies br, br.buffer
    ensures br.Valid()
    ensures r.Ok? <==> n <= |old(br.Stream())|
    ensures r.Ok? ==> r.value == MsbValue(old(br.Stream())[..n]) && br.Stream() == old(br.Stream())[n..]
    ensures r.Err? ==> r.error == BufferExhausted
  {
    ghost var s0 := br.Stream();
    var code: nat := 0;
    var i := 0;
    while i < n
      invariant br.Valid() && i <= n && i <= |s0|
      invariant br.Stream() == s0[i..] && code == MsbValue(s0[..i])
    {
      var bit := ReadBit(br);
      if bit.Err? {
        return Err(BufferExhausted);
      }
      MsbValueSnoc(s0, i);
      code := 2 * code + bit.value;
      i := i + 1;
    }
    return Ok(code);
  }

  /** Reads one symbol: the shortest length's worth of bits, most
      significant first, then one bit at a time until the code is one of
      its length.  The symbol, the bits left and the error are those of
      Decode on the bits the reader had. */
  method ReadSymbol(br: BitReader, t: Table) returns (r: Result<nat>)
    requires br.Valid() && WellShaped(t)
    modifies br, br.buffer
    ensures br.Valid()
    ensures var d := Decode(t, old(br.Stream()));
      && (r.Ok? <==> d.Ok?)
      && (r.Ok? ==> r.value == d.value.0 && br.Stream() == d.value.1)
      && (r.Err? ==> r.error == d.error)
  {
    ghost var s0 := br.Stream();
    var len: nat := t.minLength;
    var first := ReadCode(br, len);
    if first.Err? {
      return Err(BufferExhausted);
    }
    var code: nat := first.value;
    while true
      invariant br.Valid()
      invariant DecodeAt(t, br.Stream(), code, len) == Decode(t, s0)
      decreases 16 - len
    {
      if len < 1 || len > MaxCodeLength {
        return Err(InvalidCodeLength);
      }
      var b := t.buckets[len - 1];
      if b.firstCode <= code < b.firstCode + |b.symbols| {
        return Ok(b.symbols[code - b.firstCode]);
      }
      var bit := ReadBit(br);
      if bit.Err? {
        return Err(BufferExhausted);
      }
      code := 2 * code + bit.value;
      len := len + 1;
      if len > t.maxLength {
        return Err(InvalidCode);
      }
    }
  }
}
