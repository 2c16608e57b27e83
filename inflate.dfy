/** Decoding the blocks of a DEFLATE stream (section 3.2.3 of RFC 1951):
    `t2_z__read_compressed_block`, `t2_z__inflate` and `t2_z_inflate`
    (t2_inflate.c:458-540).  The output so far is a byte sequence and the
    input a bit stream; the methods run the same steps over the input and
    output buffers and the bit reader. */
module Inflating {
  import opened Common
  import opened Bits
  import opened Cursor
  import opened BitReading
  import opened Huffman
  import opened HuffmanReading
  import opened Lookup
  import opened Fixed
  import opened Dynamic

  /** The codes of a block with fixed Huffman codes: the hand-written
      literal/length table and the canonical fixed distance code. */
  function FixedCodes(): (c: Codes)
    ensures CodesShaped(c)
  {
    Codes(HandWrittenLiteral, Canonical(FixedDistanceLengths))
  }

  /** The length and distance of the pair after length symbol `sym`:
      the length and its extra bits, the distance symbol and its extra
      bits, and the rest of the stream. */
  function MatchOf(codes: Codes, sym: nat, bits: seq<bool>): (r: Result<(nat, nat, seq<bool>)>)
    requires CodesShaped(codes)
    ensures r.Ok? ==> 3 <= r.value.0 && 1 <= r.value.1 && |r.value.2| <= |bits|
  {
    match LengthOf(sym, bits)
    case Err(e) => Err(e)
    case Ok((len, r1)) =>
      match Decode(codes.distance, r1)
      case Err(e) => Err(e)
      case Ok((dsym, r2)) =>
        match DistanceOf(dsym, r2)
        case Err(e) => Err(e)
        case Ok((dist, r3)) => Ok((len, dist, r3))
  }

  /** A length/distance pair after length symbol `sym`: a copy of `len`
      bytes from `dist` bytes back.  A distance past the start of the
      output and a copy past the end of the buffer fail. */
  function CopyMatch(codes: Codes, sym: nat, bits: seq<bool>, out: seq<byte>, cap: nat): (r: Result<(seq<byte>, seq<bool>)>)
    requires CodesShaped(codes)
    ensures r.Ok? ==> |out| + 3 <= |r.value.0| <= cap && r.value.0[..|out|] == out && |r.value.1| <= |bits|
  {
    match MatchOf(codes, sym, bits)
    case Err(e) => Err(e)
    case Ok((len, dist, rest)) =>
      if dist > |out| then Err(InvalidDistance)
      else if |out| + len > cap then Err(BufferOverflow)
      else Ok((Repeat(out, dist, len), rest))
  }

  /** What one symbol of a Huffman-coded block does: whether it ended
      the block, the output after it and the rest of the stream. */
  datatype Step = Step(done: bool, out: seq<byte>, rest: seq<bool>)

  /** One symbol of a Huffman-coded block: a literal byte, the
      end-of-block symbol 256, or a length/distance pair.  A literal past
      the end of the buffer and a symbol above 285 fail. */
  function BlockStep(codes: Codes, bits: seq<bool>, out: seq<byte>, cap: nat): (r: Result<Step>)
    requires CodesShaped(codes) && |out| <= cap
    ensures r.Ok? ==> |out| <= |r.value.out| <= cap && r.value.out[..|out|] == out && |r.value.rest| < |bits|
    ensures r.Ok? && r.value.done ==> r.value.out == out
  {
    match Decode(codes.literal, bits)
    case Err(e) => Err(e)
    case Ok((sym, rest)) =>
      if sym <= 255 then
        if |out| + 1 > cap then Err(BufferOverflow)
        else
          assert (out + [sym])[..|out|] == out;
          Ok(Step(false, out + [sym], rest))
      else if sym == 256 then Ok(Step(true, out, rest))
      else if sym <= 285 then
        match CopyMatch(codes, sym, rest, out, cap)
        case Err(e) => Err(e)
        case Ok((out', rest')) => Ok(Step(false, out', rest'))
      else Err(InvalidSymbol)
  }

  /** A prefix of a prefix is a prefix. */
  lemma {:induction false} PrefixTrans(a: seq<byte>, b: seq<byte>, c: seq<byte>)
    requires |a| <= |b| <= |c| && b[..|a|] == a && c[..|b|] == b
    ensures c[..|a|] == a
  {
    assert c[..|a|] == c[..|b|][..|a|];
  }

  /** The symbols of one Huffman-coded block up to the end-of-block
      symbol. */
  function DecodeBlock(codes: Codes, bits: seq<bool>, out: seq<byte>, cap: nat): (r: Result<(seq<byte>, seq<bool>)>)
    requires CodesShaped(codes) && |out| <= cap
    ensures r.Ok? ==> |out| <= |r.value.0| <= cap && r.value.0[..|out|] == out && |r.value.1| < |bits|
    decreases |bits|
  {
    match BlockStep(codes, bits, out, cap)
    case Err(e) => Err(e)
    case Ok(step) =>
      if step.done then Ok((step.out, step.rest))
      else
        var r := DecodeBlock(codes, step.rest, step.out, cap);
        if r.Ok? then
          PrefixTrans(out, step.out, r.value.0);
          r
        else r
  }

  /** LEN bytes of a stored block, read from the whole bytes of the
      stream. */
  function StoredBytes(bits: seq<bool>, len: nat, out: seq<byte>, cap: nat): (r: Result<(seq<byte>, seq<bool>)>)
    requires |out| <= cap
    ensures r.Ok? <==> 8 * len <= |bits| && |out| + len <= cap
    ensures r.Err? ==> r.error == if 8 * len > |bits| then BufferExhausted else BufferOverflow
    ensures r.Ok? ==>
      r.value.0 == out + BitsToBytes(bits[..8 * len]) && |r.value.0| == |out| + len && r.value.1 == bits[8 * len..]
  {
    if |bits| < 8 * len then Err(BufferExhausted)
    else if |out| + len > cap then Err(BufferOverflow)
    else Ok((out + BitsToBytes(bits[..8 * len]), bits[8 * len..]))
  }

  /** A stored block: the rest of the current byte is dropped, LEN and
      NLEN are read with two 16-bit reads, LEN must be the complement of
      NLEN, and LEN bytes are copied from the input. */
  function StoredBlock(bits: seq<bool>, out: seq<byte>, cap: nat): (r: Result<(seq<byte>, seq<bool>)>)
    requires |out| <= cap
    ensures r.Ok? ==> |out| <= |r.value.0| <= cap && r.value.0[..|out|] == out && |r.value.1| <= |bits|
    ensures StoredHeader(bits).Err? ==> r == Err(StoredHeader(bits).error)
  {
    match StoredHeader(bits)
    case Err(e) => Err(e)
    case Ok((len, rest)) =>
      var r := StoredBytes(rest, len, out, cap);
      assert r.Ok? ==> r.value.0[..|out|] == out;
      r
  }

  /** LEN of a stored block once NLEN is checked against it, and the
      stream after both. */
  function StoredHeader(bits: seq<bool>): (r: Result<(nat, seq<bool>)>)
    ensures r.Ok? ==> r.value.0 < 65536 && |r.value.1| + 32 <= |bits|
    ensures |bits| - |bits| % 8 < 32 ==> r == Err(BufferExhausted)
    ensures var aligned := bits[|bits| % 8..];
      |aligned| >= 32 ==>
        var len := ReadValue(aligned, 16);
        var nlen := ReadValue(aligned[16..], 16);
        && (r.Ok? <==> len + nlen == 65535)
        && (r.Ok? ==> r.value == (len, aligned[32..]))
        && (r.Err? ==> r.error == LengthMismatch)
  {
    var aligned := bits[|bits| % 8..];
    match ReadBits(aligned, 16)
    case Err(e) => Err(e)
    case Ok((len, r1)) =>
      match ReadBits(r1, 16)
      case Err(e) => Err(e)
      case Ok((nlen, r2)) =>
        if len + nlen != 65535 then Err(LengthMismatch) else Ok((len, r2))
  }

  /** The body of one block of type `btype` (BTYPE of section 3.2.3). */
  function Block(btype: nat, bits: seq<bool>, out: seq<byte>, cap: nat): (r: Result<(seq<byte>, seq<bool>)>)
    requires |out| <= cap
    ensures btype > 2 ==> r == Err(InvalidBlockType)
    ensures r.Ok? ==> |out| <= |r.value.0| <= cap && r.value.0[..|out|] == out && |r.value.1| <= |bits|
  {
    if btype == 0 then StoredBlock(bits, out, cap)
    else if btype == 1 then DecodeBlock(FixedCodes(), bits, out, cap)
    else if btype == 2 then
      match DynamicCodes(bits)
      case Err(e) => Err(e)
      case Ok((codes, rest)) => DecodeBlock(codes, rest, out, cap)
    else Err(InvalidBlockType)
  }

  /** Blocks, each with a 3-bit header (BFINAL in bit 0, BTYPE in bits 1
      and 2), until the one marked final. */
  function InflateBlocks(bits: seq<bool>, out: seq<byte>, cap: nat): (r: Result<(seq<byte>, seq<bool>)>)
    requires |out| <= cap
    ensures r.Ok? ==> |out| <= |r.value.0| <= cap && r.value.0[..|out|] == out && |r.value.1| + 3 <= |bits|
    decreases |bits|
  {
    match ReadBits(bits, 3)
    case Err(e) => Err(e)
    case Ok((header, rest)) =>
      match Block((header / 2) % 4, rest, out, cap)
      case Err(e) => Err(e)
      case Ok((out', rest')) =>
        if header % 2 == 1 then Ok((out', rest'))
        else
          var r := InflateBlocks(rest', out', cap);
          assert r.Ok? ==> r.value.0[..|out|] == out'[..|out|];
          r
  }

  /** `t2_z_inflate`: the bytes a whole input decompresses to, into an
      output buffer of `cap` bytes. */
  function Inflate(input: seq<byte>, cap: nat): (r: Result<seq<byte>>)
    ensures r.Ok? ==> |r.value| <= cap
  {
    match InflateBlocks(BytesToBits(input), [], cap)
    case Err(e) => Err(e)
    case Ok((out, _)) => Ok(out)
  }

  // ---------------------------------------------------------------------
  // The decoder over the buffers

  /** The output buffer and the input under the bit reader are two
      different buffers over two different arrays. */
  ghost predicate Apart(br: BitReader, out: Buffer)
    reads br
  {
    out != br.buffer && out.data != br.buffer.data
  }

  /** The length and distance reads of the length/distance branch of
      `t2_z__read_compressed_block`. */
  method ReadPair(br: BitReader, codes: Codes, sym: nat) returns (r: Result<(nat, nat)>)
    requires br.Valid() && CodesShaped(codes)
    modifies br, br.buffer
    ensures br.Valid()
    ensures var d := MatchOf(codes, sym, old(br.Stream()));
      && (r.Ok? <==> d.Ok?)
      && (r.Ok? ==> r.value == (d.value.0, d.value.1) && br.Stream() == d.value.2)
      && (r.Err? ==> r.error == d.error)
  {
    var len := DecodeLength(br, sym);
    if len.Err? {
      return Err(len.error);
    }
    var dsym := ReadSymbol(br, codes.distance);
    if dsym.Err? {
      return Err(dsym.error);
    }
    var dist := DecodeDistance(br, dsym.value);
    if dist.Err? {
      return Err(dist.error);
    }
    return Ok((len.value, dist.value));
  }

  /** The length/distance branch of `t2_z__read_compressed_block`. */
  method ReadMatch(br: BitReader, out: Buffer, codes: Codes, sym: nat) returns (r: Result<()>)
    requires br.Valid() && out.Valid() && CodesShaped(codes) && Apart(br, out)
    modifies br, br.buffer, out, out.data
    ensures br.Valid() && out.Valid()
    ensures old(out.position) <= out.position && out.data[out.position..] == old(out.data[..])[out.position..]
    ensures var d := CopyMatch(codes, sym, old(br.Stream()), old(out.data[..out.position]), out.data.Length);
      && (r.Ok? <==> d.Ok?)
      && (r.Ok? ==> out.data[..out.position] == d.value.0 && br.Stream() == d.value.1)
      && (r.Err? ==> r.error == d.error)
  {
    ghost var bits := br.Stream();
    var p := ReadPair(br, codes, sym);
    if p.Err? {
      return Err(p.error);
    }
    ghost var rest := br.Stream();
    r := CopyPair(out, codes, sym, bits, rest, p.value.0, p.value.1);
    assert br.Stream() == rest;
  }

  /** The copy of the length/distance branch, once the pair is read from
      `bits` with `rest` left: CopyMatch of the output so far. */
  method CopyPair(out: Buffer, ghost codes: Codes, ghost sym: nat, ghost bits: seq<bool>, ghost rest: seq<bool>, len: nat, dist: nat)
    returns (r: Result<()>)
    requires out.Valid() && CodesShaped(codes) && MatchOf(codes, sym, bits) == Ok((len, dist, rest))
    modifies out, out.data
    ensures out.Valid()
    ensures old(out.position) <= out.position && out.data[out.position..] == old(out.data[..])[out.position..]
    ensures var d := CopyMatch(codes, sym, bits, old(out.data[..out.position]), out.data.Length);
      && (r.Ok? <==> d.Ok?)
      && (r.Ok? ==> out.data[..out.position] == d.value.0 && d.value.1 == rest)
      && (r.Err? ==> r.error == d.error)
  {
    CopyMatchOf(codes, sym, bits, out.data[..out.position], out.data.Length, len, dist, rest);
    ghost var before := out.data[..];
    r := out.CopyBack(dist, len);
    if r.Err? {
      assert out.data[..] == before;
      assert out.data[out.position..] == before[out.position..];
    }
  }

  /** CopyMatch once the length and the distance are read. */
  lemma {:induction false} CopyMatchOf(codes: Codes, sym: nat, bits: seq<bool>, out: seq<byte>, cap: nat, len: nat, dist: nat, rest: seq<bool>)
    requires CodesShaped(codes) && MatchOf(codes, sym, bits) == Ok((len, dist, rest))
    ensures CopyMatch(codes, sym, bits, out, cap)
         == if dist > |out| then Err(InvalidDistance)
            else if |out| + len > cap then Err(BufferOverflow)
            else Ok((Repeat(out, dist, len), rest))
  {
  }

  /** One pass of the loop of `t2_z__read_compressed_block`; `done` when
      the symbol was the end of the block. */
  method ReadStep(br: BitReader, out: Buffer, codes: Codes) returns (r: Result<bool>)
    requires br.Valid() && out.Valid() && CodesShaped(codes) && Apart(br, out)
    modifies br, br.buffer, out, out.data
    ensures br.Valid() && out.Valid()
    ensures old(out.position) <= out.position && out.data[out.position..] == old(out.data[..])[out.position..]
    ensures var d := BlockStep(codes, old(br.Stream()), old(out.data[..out.position]), out.data.Length);
      && (r.Ok? <==> d.Ok?)
      && (r.Ok? ==> r.value == d.value.done && out.data[..out.position] == d.value.out && br.Stream() == d.value.rest)
      && (r.Err? ==> r.error == d.error)
  {
    ghost var o := out.data[..out.position];
    var op := ReadSymbol(br, codes.literal);
    if op.Err? {
      return Err(op.error);
    }
    if op.value <= 255 {
      var w := out.WriteByte(op.value);
      if w.Err? {
        return Err(w.error);
      }
      assert out.data[..out.position] == o + [op.value];
      return Ok(false);
    } else if op.value == 256 {
      return Ok(true);
    } else if op.value <= 285 {
      var m := ReadMatch(br, out, codes, op.value);
      if m.Err? {
        return Err(m.error);
      }
      return Ok(false);
    } else {
      return Err(InvalidSymbol);
    }
  }

  /** `t2_z__read_compressed_block`: symbols until the end of the block. */
  method ReadCompressedBlock(br: BitReader, out: Buffer, codes: Codes) returns (r: Result<()>)
    requires br.Valid() && out.Valid() && CodesShaped(codes) && Apart(br, out)
    modifies br, br.buffer, out, out.data
    ensures br.Valid() && out.Valid()
    ensures old(out.position) <= out.position && out.data[out.position..] == old(out.data[..])[out.position..]
    ensures var d := DecodeBlock(codes, old(br.Stream()), old(out.data[..out.position]), out.data.Length);
      && (r.Ok? <==> d.Ok?)
      && (r.Ok? ==> out.data[..out.position] == d.value.0 && br.Stream() == d.value.1)
      && (r.Err? ==> r.error == d.error)
  {
    ghost var d0 := DecodeBlock(codes, br.Stream(), out.data[..out.position], out.data.Length);
    ghost var p0, before := out.position, out.data[..];
    while true
      invariant br.Valid() && out.Valid()
      invariant p0 <= out.position && out.data[out.position..] == before[out.position..]
      invariant DecodeBlock(codes, br.Stream(), out.data[..out.position], out.data.Length) == d0
      decreases |br.Stream()|
    {
      var done := ReadStep(br, out, codes);
      if done.Err? {
        return Err(done.error);
      }
      if done.value {
        return Ok(());
      }
    }
  }

  /** The bytes of a stream of whole bytes, and what follows them. */
  lemma {:induction false} StoredBytesOf(input: seq<byte>, len: nat)
    requires len <= |input|
    ensures BitsToBytes(BytesToBits(input)[..8 * len]) == input[..len]
    ensures BytesToBits(input)[8 * len..] == BytesToBits(input[len..])
  {
    BytesToBitsSplit(input, len);
    BytesRoundTrip(input[..len]);
  }

  /** The copy of t2_inflate.c:518 from the input buffer, once the reader
      is at a byte boundary. */
  method CopyStored(br: BitReader, out: Buffer, len: nat) returns (r: Result<()>)
    requires br.Valid() && out.Valid() && Apart(br, out) && br.bitsLeft == 0
    modifies br.buffer, out, out.data
    ensures br.Valid() && out.Valid()
    ensures old(out.position) <= out.position && out.data[out.position..] == old(out.data[..])[out.position..]
    ensures var d := StoredBytes(old(br.Stream()), len, old(out.data[..out.position]), out.data.Length);
      && (r.Ok? <==> d.Ok?)
      && (r.Ok? ==> out.data[..out.position] == d.value.0 && br.Stream() == d.value.1)
      && (r.Err? ==> r.error == d.error)
  {
    ghost var p := br.buffer.position;
    ghost var input := br.buffer.data[p..];
    assert LowBits(br.cur, 0) == [];
    assert br.Stream() == BytesToBits(input);
    r := out.CopyFrom(br.buffer, len);
    if r.Ok? {
      StoredBytesOf(input, len);
      assert br.buffer.data[p..p + len] == input[..len];
      assert br.buffer.data[br.buffer.position..] == input[len..];
    }
  }

  /** The stored-block branch of `t2_z__inflate`. */
  method ReadStoredBlock(br: BitReader, out: Buffer) returns (r: Result<()>)
    requires br.Valid() && out.Valid() && Apart(br, out)
    modifies br, br.buffer, out, out.data
    ensures br.Valid() && out.Valid()
    ensures old(out.position) <= out.position && out.data[out.position..] == old(out.data[..])[out.position..]
    ensures var d := StoredBlock(old(br.Stream()), old(out.data[..out.position]), out.data.Length);
      && (r.Ok? <==> d.Ok?)
      && (r.Ok? ==> out.data[..out.position] == d.value.0 && br.Stream() == d.value.1)
      && (r.Err? ==> r.error == d.error)
  {
    var len := ReadStoredHeader(br);
    if len.Err? {
      return Err(len.error);
    }
    r := CopyStored(br, out, len.value);
  }

  /** The flush and the two 16-bit reads of t2_inflate.c:513-516; the
      reader ends on a byte boundary. */
  method ReadStoredHeader(br: BitReader) returns (r: Result<nat>)
    requires br.Valid()
    modifies br, br.buffer
    ensures br.Valid()
    ensures var d := StoredHeader(old(br.Stream()));
      && (r.Ok? <==> d.Ok?)
      && (r.Ok? ==> r.value == d.value.0 && br.Stream() == d.value.1 && br.bitsLeft == 0)
      && (r.Err? ==> r.error == d.error)
  {
    br.Flush();
    StreamAvail(br.cur, br.bitsLeft, br.buffer.data[br.buffer.position..]);
    r := ReadStoredLengths(br);
    if r.Ok? {
      AlignedStream(br.cur, br.bitsLeft, br.buffer.data[br.buffer.position..]);
    }
  }

  /** LEN and NLEN of a stored block from a reader on a byte boundary. */
  method ReadStoredLengths(br: BitReader) returns (r: Result<nat>)
    requires br.Valid() && |br.Stream()| % 8 == 0
    modifies br, br.buffer
    ensures br.Valid()
    ensures var d := StoredHeader(old(br.Stream()));
      && (r.Ok? <==> d.Ok?)
      && (r.Ok? ==> r.value == d.value.0 && br.Stream() == d.value.1 && |br.Stream()| % 8 == 0)
      && (r.Err? ==> r.error == d.error)
  {
    ghost var s1 := br.Stream();
    assert s1[|s1| % 8..] == s1;
    var len := br.Read(16);
    if len.Err? {
      return Err(len.error);
    }
    var nlen := br.Read(16);
    if nlen.Err? {
      return Err(nlen.error);
    }
    if len.value + nlen.value != 65535 {
      return Err(LengthMismatch);
    }
    assert br.Stream() == s1[32..];
    WholeBytesLess32(|s1|);
    return Ok(len.value);
  }

  /** One block of type `btype`, read as `Block` does. */
  method ReadBlock(br: BitReader, out: Buffer, fixed: FixedTables, btype: nat) returns (r: Result<()>)
    requires br.Valid() && out.Valid() && fixed.Valid() && Apart(br, out)
    modifies br, br.buffer, out, out.data, fixed
    ensures br.Valid() && out.Valid() && fixed.Valid()
    ensures old(out.position) <= out.position && out.data[out.position..] == old(out.data[..])[out.position..]
    ensures var d := Block(btype, old(br.Stream()), old(out.data[..out.position]), out.data.Length);
      && (r.Ok? <==> d.Ok?)
      && (r.Ok? ==> out.data[..out.position] == d.value.0 && br.Stream() == d.value.1)
      && (r.Err? ==> r.error == d.error)
  {
    if btype == 0 {
      r := ReadStoredBlock(br, out);
    } else if btype == 1 {
      var lit, dist := fixed.Get();
      r := ReadCompressedBlock(br, out, Codes(lit, dist));
    } else if btype == 2 {
      var codes := ReadDynamicCodes(br);
      if codes.Err? {
        return Err(codes.error);
      }
      r := ReadCompressedBlock(br, out, codes.value);
    } else {
      r := Err(InvalidBlockType);
    }
  }

  /** `t2_z__inflate`: blocks until the final one. */
  method InflateAll(br: BitReader, out: Buffer, fixed: FixedTables) returns (r: Result<()>)
    requires br.Valid() && out.Valid() && fixed.Valid() && Apart(br, out)
    modifies br, br.buffer, out, out.data, fixed
    ensures br.Valid() && out.Valid() && fixed.Valid()
    ensures old(out.position) <= out.position && out.data[out.position..] == old(out.data[..])[out.position..]
    ensures var d := InflateBlocks(old(br.Stream()), old(out.data[..out.position]), out.data.Length);
      && (r.Ok? <==> d.Ok?)
      && (r.Ok? ==> out.data[..out.position] == d.value.0 && br.Stream() == d.value.1)
      && (r.Err? ==> r.error == d.error)
  {
    ghost var d0 := InflateBlocks(br.Stream(), out.data[..out.position], out.data.Length);
    ghost var p0, before := out.position, out.data[..];
    while true
      invariant br.Valid() && out.Valid() && fixed.Valid()
      invariant p0 <= out.position && out.data[out.position..] == before[out.position..]
      invariant InflateBlocks(br.Stream(), out.data[..out.position], out.data.Length) == d0
      decreases |br.Stream()|
    {
      ghost var now, pNow := out.data[..], out.position;
      var header := br.Read(3);
      assert out.data[..] == now;
      if header.Err? {
        return Err(header.error);
      }
      var b := ReadBlock(br, out, fixed, (header.value / 2) % 4);
      KeptTrans(before, now, out.data[..], pNow, out.position);
      if b.Err? {
        return Err(b.error);
      }
      if header.value % 2 == 1 {
        return Ok(());
      }
    }
  }

  /** `t2_z_inflate` over an input array and an output array: both
      buffers start at position 0 and the bit reader starts on the input.
      The result is the number of bytes written. */
  method InflateArrays(input: array<byte>, output: array<byte>, fixed: FixedTables) returns (r: Result<nat>)
    requires input != output && fixed.Valid()
    modifies output, fixed
    ensures fixed.Valid()
    ensures var d := Inflate(input[..], output.Length);
      && (r.Ok? <==> d.Ok?)
      && (r.Ok? ==> r.value <= output.Length && output[..r.value] == d.value && output[r.value..] == old(output[r.value..]))
      && (r.Err? ==> r.error == d.error)
  {
    var bufferIn := new Buffer(input, 0);
    var bufferOut := new Buffer(output, 0);
    var br := new BitReader(bufferIn);
    assert input[0..] == input[..] && output[..0] == [];
    var done := InflateAll(br, bufferOut, fixed);
    if done.Err? {
      return Err(done.error);
    }
    return Ok(bufferOut.position);
  }
}
