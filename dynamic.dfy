/** The header of a block with dynamic Huffman codes (section 3.2.7 of
    RFC 1951; `t2_z__read_dyn_huffman_tables` and
    `t2_z__read_dyn_huffman_table`, t2_inflate.h:245-316): HLIT, HDIST and
    HCLEN, the code lengths of the code-length code in a fixed permuted
    order, and the literal/length and distance code lengths written with
    that code and the run-length ops 16, 17 and 18. */
module Dynamic {
  import opened Common
  import opened Bits
  import opened BitReading
  import opened Huffman
  import opened HuffmanReading

  /** The order in which the code lengths of the code-length alphabet
      appear (t2_inflate.h:297). */
  const HclenOrder: seq<nat> := [16, 17, 18, 0, 8, 7, 9, 6, 10, 5, 11, 4, 12, 3, 13, 2, 14, 1, 15]

  /** Where each code-length symbol appears in the order. */
  const OrderPosition: seq<nat> := [3, 17, 15, 13, 11, 9, 7, 5, 4, 6, 8, 10, 12, 14, 16, 18, 0, 1, 2]

  /** The order lists each of the 19 code-length symbols exactly once:
      it is a permutation of 0..18, with OrderPosition its inverse. */
  lemma {:induction false} HclenOrderPermutation()
    ensures |HclenOrder| == 19 && |OrderPosition| == 19
    ensures forall i :: 0 <= i < 19 ==> HclenOrder[i] < 19 && OrderPosition[HclenOrder[i]] == i
    ensures forall x :: 0 <= x < 19 ==> OrderPosition[x] < 19 && HclenOrder[OrderPosition[x]] == x
  {
  }

  /** The k-th 3-bit field of `bits`. */
  function Field3(bits: seq<bool>, k: nat): (r: nat)
    requires 3 * k + 3 <= |bits|
    ensures r < 8
  {
    var f := ReadBits(bits[3 * k..], 3);
    assert Pow2(3) == 8;
    f.value.0
  }

  /** The code lengths of the code-length alphabet after the first n
      3-bit fields of `bits` (t2_inflate.h:301-310): the i-th field is the
      length of symbol HclenOrder[i], and the symbols after the n-th in the
      order keep length 0.  A zero field is skipped by the source, which
      leaves the entry at the 0 it started with. */
  function ClenLengths(bits: seq<bool>, n: nat): (r: seq<nat>)
    requires n <= 19 && 3 * n <= |bits|
    ensures |r| == 19 && LengthsInRange(r)
  {
    seq(19, x requires 0 <= x < 19 => if OrderPosition[x] < n then Field3(bits, OrderPosition[x]) else 0)
  }

  /** The i-th field is the length of the i-th symbol of the order; the
      symbols later in the order than the n-th have length 0. */
  lemma {:induction false} ClenLengthsPlaces(bits: seq<bool>, n: nat)
    requires n <= 19 && 3 * n <= |bits|
    ensures forall i :: 0 <= i < n ==> ClenLengths(bits, n)[HclenOrder[i]] == Field3(bits, i)
    ensures forall i :: n <= i < 19 ==> ClenLengths(bits, n)[HclenOrder[i]] == 0
  {
    HclenOrderPermutation();
  }

  /** One more field read by the loop gives the lengths after n + 1
      fields, whether the field is zero (and skipped) or not. */
  lemma {:induction false} ClenStep(bits: seq<bool>, n: nat)
    requires n < 19 && 3 * n + 3 <= |bits|
    ensures var v := Field3(bits, n);
      (if v == 0 then ClenLengths(bits, n) else ClenLengths(bits, n)[HclenOrder[n] := v]) == ClenLengths(bits, n + 1)
  {
    HclenOrderPermutation();
  }

  // ---------------------------------------------------------------------
  // Run-length coded code lengths

  /** The length of a run: `base` plus the next `extra` bits. */
  function RunOf(bits: seq<bool>, extra: nat, base: nat): (r: Result<(nat, seq<bool>)>)
    requires extra <= 7
    ensures r.Ok? <==> extra <= |bits|
    ensures r.Err? ==> r.error == BufferExhausted
    ensures r.Ok? ==> base <= r.value.0 < base + Pow2(extra) && r.value.1 == bits[extra..]
  {
    match ReadBits(bits, extra)
    case Err(e) => Err(e)
    case Ok((v, rest)) => Ok((base + v, rest))
  }

  /** The run lengths of ops 16, 17 and 18: 3..6, 3..10 and 11..138. */
  lemma {:induction false} RunRanges()
    ensures Pow2(2) == 4 && Pow2(3) == 8 && Pow2(4) == 16 && Pow2(7) == 128
  {
    assert Pow2(2) == 4 && Pow2(3) == 8 && Pow2(4) == 16;
  }

  /** One op of the code-length code t, read when `filled` of `count`
      lengths are known and the last of them is `last`: n copies of the
      length v.  An op 0..15 is one length; 16 repeats the previous length
      3 + (2 bits) times; 17 and 18 give 3 + (3 bits) and 11 + (7 bits)
      zeros.  A 16 with no previous length, a run past `count` and an op
      above 18 fail. */
  function RunOp(t: Table, bits: seq<bool>, filled: nat, last: nat, count: nat): (r: Result<(nat, nat, seq<bool>)>)
    requires WellShaped(t) && filled < count
    ensures r.Ok? ==> 1 <= r.value.0 <= 138 && filled + r.value.0 <= count && |r.value.2| < |bits|
    ensures r.Ok? ==> r.value.1 <= 15 || r.value.1 == last
    ensures r.Ok? && r.value.0 > 1 ==> r.value.0 >= 3 && (r.value.1 == 0 || (r.value.1 == last && filled > 0 && r.value.0 <= 6))
  {
    match Decode(t, bits)
    case Err(e) => Err(e)
    case Ok((op, rest)) =>
      if op <= 15 then Ok((1, op, rest))
      else if op > 18 then Err(InvalidLengthOp)
      else if op == 16 && filled == 0 then Err(InvalidRepeat)
      else
        RunRanges();
        var run := if op == 16 then RunOf(rest, 2, 3) else if op == 17 then RunOf(rest, 3, 3) else RunOf(rest, 7, 11);
        match run
        case Err(e) => Err(e)
        case Ok((n, rest')) =>
          if filled + n > count then Err(RunTooLong)
          else Ok((n, if op == 16 then last else 0, rest'))
  }

  /** The last length known, or 0 when there is none. */
  function Last(lens: seq<nat>): nat {
    if |lens| == 0 then 0 else lens[|lens| - 1]
  }

  /** `count` code lengths decoded with the code-length code t, after the
      lengths `lens` already decoded. */
  function RunLengths(t: Table, bits: seq<bool>, count: nat, lens: seq<nat>): (r: Result<(seq<nat>, seq<bool>)>)
    requires WellShaped(t) && |lens| <= count
    ensures r.Ok? ==> |r.value.0| == count && r.value.0[..|lens|] == lens && |r.value.1| <= |bits|
    ensures r.Ok? && LengthsInRange(lens) ==> LengthsInRange(r.value.0)
    decreases count - |lens|
  {
    if |lens| == count then Ok((lens, bits))
    else
      match RunOp(t, bits, |lens|, Last(lens), count)
      case Err(e) => Err(e)
      case Ok((n, v, rest)) =>
        var lens' := lens + seq(n, _ => v);
        var r := RunLengths(t, rest, count, lens');
        assert r.Ok? ==> r.value.0[..|lens|] == lens'[..|lens|];
        r
  }

  /** The encoder's direction for the plain ops: each length written as
      its own code in the code-length code of `clens`. */
  function LiteralOps(clens: seq<nat>, lens: seq<nat>): (r: seq<bool>)
    requires forall k :: 0 <= k < |lens| ==> lens[k] < |clens| && clens[lens[k]] >= 1
  {
    if |lens| == 0 then [] else CodeBits(clens, lens[0]) + LiteralOps(clens, lens[1..])
  }

  /** Lengths written one op each are decoded back, and the rest of the
      stream is left as it was. */
  lemma {:induction false} LiteralOpsRoundTrip(clens: seq<nat>, target: seq<nat>, j: nat, rest: seq<bool>)
    requires LengthsInRange(clens) && Fits(clens) && j <= |target|
    requires forall k :: 0 <= k < |target| ==> target[k] <= 15 && target[k] < |clens| && clens[target[k]] >= 1
    ensures RunLengths(Canonical(clens), LiteralOps(clens, target[j..]) + rest, |target|, target[..j]) == Ok((target, rest))
    decreases |target| - j
  {
    if j == |target| {
      assert target[j..] == [] && target[..j] == target;
      assert LiteralOps(clens, target[j..]) + rest == rest;
    } else {
      var s := target[j];
      var tail := LiteralOps(clens, target[j + 1..]) + rest;
      assert target[j..][1..] == target[j + 1..];
      assert LiteralOps(clens, target[j..]) + rest == CodeBits(clens, s) + tail;
      DecodeCodeBits(clens, s, tail);
      assert target[..j] + seq(1, _ => s) == target[..j + 1];
      LiteralOpsRoundTrip(clens, target, j + 1, rest);
    }
  }

  // ---------------------------------------------------------------------
  // The whole header

  /** HLIT, HDIST and HCLEN: 5, 5 and 4 bits. */
  function Header(bits: seq<bool>): (r: Result<(nat, nat, nat, seq<bool>)>)
    ensures r.Ok? <==> 14 <= |bits|
    ensures r.Err? ==> r.error == BufferExhausted
    ensures r.Ok? ==> r.value.0 < 32 && r.value.1 < 32 && r.value.2 < 16 && r.value.3 == bits[14..]
  {
    RunRanges();
    assert Pow2(5) == 32;
    match ReadBits(bits, 5)
    case Err(e) => Err(e)
    case Ok((hlit, r1)) =>
      match ReadBits(r1, 5)
      case Err(e) => Err(e)
      case Ok((hdist, r2)) =>
        match ReadBits(r2, 4)
        case Err(e) => Err(e)
        case Ok((hclen, r3)) => Ok((hlit, hdist, hclen, r3))
  }

  /** The codes of a dynamic block: HLIT + 257 literal/length lengths
      followed by HDIST + 1 distance lengths, decoded as one sequence with
      the code-length code of the HCLEN + 4 fields, and the canonical
      tables of both parts. */
  function DynamicCodes(bits: seq<bool>): (r: Result<(Codes, seq<bool>)>)
    ensures r.Ok? ==> CodesShaped(r.value.0) && |r.value.1| + 26 <= |bits|
  {
    match Header(bits)
    case Err(e) => Err(e)
    case Ok((hlit, hdist, hclen, rest)) => CodesAfterHeader(hlit, hdist, hclen, rest)
  }

  /** The code-length code of the HCLEN + 4 fields and the codes read
      with it. */
  function CodesAfterHeader(hlit: nat, hdist: nat, hclen: nat, bits: seq<bool>): (r: Result<(Codes, seq<bool>)>)
    requires hclen < 16
    ensures r.Ok? ==> CodesShaped(r.value.0) && |r.value.1| + 12 <= |bits|
  {
    var n := hclen + 4;
    if |bits| < 3 * n then Err(BufferExhausted)
    else CodesWith(Canonical(ClenLengths(bits, n)), hlit + 257, hlit + 257 + hdist + 1, bits[3 * n..])
  }

  /** The `count` code lengths read with the code-length code t, split
      after the first nlit into the literal/length and distance codes. */
  function CodesWith(t: Table, nlit: nat, count: nat, bits: seq<bool>): (r: Result<(Codes, seq<bool>)>)
    requires WellShaped(t) && nlit <= count
    ensures r.Ok? ==> CodesShaped(r.value.0) && |r.value.1| <= |bits|
  {
    match RunLengths(t, bits, count, [])
    case Err(e) => Err(e)
    case Ok((lens, rest)) => Ok((Codes(Canonical(lens[..nlit]), Canonical(lens[nlit..])), rest))
  }

  /** The builds of t2_inflate.h:312 and :315-316 cannot fail: every code
      length the dynamic header yields is at most 15. */
  lemma {:induction false} DynamicBuildsSucceed(t: Table, bits: seq<bool>, count: nat, nlit: nat)
    requires WellShaped(t) && nlit <= count && RunLengths(t, bits, count, []).Ok?
    ensures var lens := RunLengths(t, bits, count, []).value.0;
      Build(lens[..nlit]) == Ok(Canonical(lens[..nlit])) && Build(lens[nlit..]) == Ok(Canonical(lens[nlit..]))
  {
    var lens := RunLengths(t, bits, count, []).value.0;
    assert LengthsInRange(lens[..nlit]) && LengthsInRange(lens[nlit..]);
  }

  // ---------------------------------------------------------------------
  // The reader

  /** Position i of the order names a code-length symbol. */
  lemma {:induction false} OrderEntry(i: nat)
    requires i < 19
    ensures HclenOrder[i] < 19
  {
    HclenOrderPermutation();
  }

  /** The HCLEN loop (t2_inflate.h:301-310) over a 19-entry array. */
  method ReadClens(br: BitReader, n: nat) returns (r: Result<seq<nat>>)
    requires br.Valid() && n <= 19
    modifies br, br.buffer
    ensures br.Valid()
    ensures r.Ok? <==> 3 * n <= |old(br.Stream())|
    ensures r.Ok? ==> r.value == ClenLengths(old(br.Stream()), n) && br.Stream() == old(br.Stream())[3 * n..]
    ensures r.Err? ==> r.error == BufferExhausted
  {
    ghost var s0 := br.Stream();
    var lengths := new nat[19](_ => 0);
    assert lengths[..] == ClenLengths(s0, 0);
    var i := 0;
    while i < n
      invariant br.Valid() && i <= n && 3 * i <= |s0| && lengths.Length == 19
      invariant br.Stream() == s0[3 * i..] && lengths[..] == ClenLengths(s0, i)
    {
      var ok := ReadClen(br, lengths, s0, i);
      if !ok {
        return Err(BufferExhausted);
      }
      i := i + 1;
    }
    return Ok(lengths[..]);
  }

  /** One turn of the HCLEN loop: the i-th 3-bit field is the length of
      the i-th symbol of the order. */
  method ReadClen(br: BitReader, lengths: array<nat>, ghost s0: seq<bool>, i: nat) returns (ok: bool)
    requires br.Valid() && i < 19 && 3 * i <= |s0| && lengths.Length == 19
    requires br.Stream() == s0[3 * i..] && lengths[..] == ClenLengths(s0, i)
    modifies br, br.buffer, lengths
    ensures br.Valid()
    ensures ok <==> 3 * i + 3 <= |s0|
    ensures ok ==> br.Stream() == s0[3 * (i + 1)..] && lengths[..] == ClenLengths(s0, i + 1)
  {
    var v := br.Read(3);
    if v.Err? {
      return false;
    }
    assert v.value == Field3(s0, i);
    ClenStep(s0, i);
    OrderEntry(i);
    if v.value != 0 {
      lengths[HclenOrder[i]] := v.value;
    }
    assert s0[3 * i..][3..] == s0[3 * (i + 1)..];
    return true;
  }

  /** Reads one op of the code-length code, as RunOp does. */
  method ReadRunOp(br: BitReader, t: Table, filled: nat, last: nat, count: nat) returns (r: Result<(nat, nat)>)
    requires br.Valid() && WellShaped(t) && filled < count
    modifies br, br.buffer
    ensures br.Valid()
    ensures var d := RunOp(t, old(br.Stream()), filled, last, count);
      && (r.Ok? <==> d.Ok?)
      && (r.Ok? ==> r.value == (d.value.0, d.value.1) && br.Stream() == d.value.2)
      && (r.Err? ==> r.error == d.error)
  {
    ghost var bits := br.Stream();
    var op := ReadSymbol(br, t);
    if op.Err? {
      return Err(op.error);
    }
    if op.value <= 15 {
      return Ok((1, op.value));
    }
    if op.value > 18 {
      return Err(InvalidLengthOp);
    }
    if op.value == 16 && filled == 0 {
      return Err(InvalidRepeat);
    }
    var extra := if op.value == 16 then 2 else if op.value == 17 then 3 else 7;
    var base := if op.value == 18 then 11 else 3;
    RunOpRepeat(t, bits, filled, last, count, op.value, br.Stream());
    var e := ReadRun(br, extra, base);
    if e.Err? {
      return Err(e.error);
    }
    var n := e.value;
    if filled + n > count {
      return Err(RunTooLong);
    }
    return Ok((n, if op.value == 16 then last else 0));
  }

  /** RunOp on a repeat op: the run length, then the check against
      `count`. */
  lemma {:induction false} RunOpRepeat(t: Table, bits: seq<bool>, filled: nat, last: nat, count: nat, op: nat, rest: seq<bool>)
    requires WellShaped(t) && filled < count && Decode(t, bits) == Ok((op, rest))
    requires 16 <= op <= 18 && !(op == 16 && filled == 0)
    ensures RunOp(t, bits, filled, last, count)
         == match RunOf(rest, if op == 16 then 2 else if op == 17 then 3 else 7, if op == 18 then 11 else 3)
            case Err(e) => Err(e)
            case Ok((n, rest')) =>
              if filled + n > count then Err(RunTooLong) else Ok((n, if op == 16 then last else 0, rest'))
  {
  }

  /** The extra bits of a repeat op, added to its base. */
  method ReadRun(br: BitReader, extra: nat, base: nat) returns (r: Result<nat>)
    requires br.Valid() && extra <= 7
    modifies br, br.buffer
    ensures br.Valid()
    ensures var d := RunOf(old(br.Stream()), extra, base);
      && (r.Ok? <==> d.Ok?)
      && (r.Ok? ==> r.value == d.value.0 && br.Stream() == d.value.1)
      && (r.Err? ==> r.error == d.error)
  {
    var e := br.Read(extra);
    if e.Err? {
      return Err(e.error);
    }
    return Ok(base + e.value);
  }

  /** Writes `n` copies of v at position i of `lens`, advancing i inside
      the loop as the repeat loops of t2_inflate.h:268-277 do. */
  method FillRun(lens: array<nat>, i: nat, n: nat, v: nat) returns (i': nat)
    requires i + n <= lens.Length
    modifies lens
    ensures i' == i + n && lens[..i'] == old(lens[..i]) + seq(n, _ => v)
  {
    ghost var before := lens[..i];
    i' := i;
    var j := 0;
    while j < n
      invariant j <= n && i' == i + j && lens[..i'] == before + seq(j, _ => v)
    {
      lens[i'] := v;
      assert lens[..i' + 1] == lens[..i'] + [v];
      i' := i' + 1;
      j := j + 1;
      assert seq(j, _ => v) == seq(j - 1, _ => v) + [v];
    }
  }

  /** `t2_z__read_dyn_huffman_table` over one array of `count` lengths. */
  method ReadRunLengths(br: BitReader, t: Table, count: nat) returns (r: Result<seq<nat>>)
    requires br.Valid() && WellShaped(t)
    modifies br, br.buffer
    ensures br.Valid()
    ensures var d := RunLengths(t, old(br.Stream()), count, []);
      && (r.Ok? <==> d.Ok?)
      && (r.Ok? ==> r.value == d.value.0 && br.Stream() == d.value.1)
      && (r.Err? ==> r.error == d.error)
  {
    ghost var s0 := br.Stream();
    var lens := new nat[count](_ => 0);
    var i := 0;
    assert lens[..0] == [];
    while i < count
      invariant br.Valid() && i <= count && lens.Length == count
      invariant RunLengths(t, br.Stream(), count, lens[..i]) == RunLengths(t, s0, count, [])
      decreases count - i
    {
      var last := if i == 0 then 0 else lens[i - 1];
      assert last == Last(lens[..i]);
      var op := ReadRunOp(br, t, i, last, count);
      if op.Err? {
        return Err(op.error);
      }
      var (n, v) := op.value;
      i := FillRun(lens, i, n, v);
    }
    assert lens[..i] == lens[..];
    return Ok(lens[..]);
  }

  /** The three header fields. */
  method ReadHeader(br: BitReader) returns (r: Result<(nat, nat, nat)>)
    requires br.Valid()
    modifies br, br.buffer
    ensures br.Valid()
    ensures var d := Header(old(br.Stream()));
      && (r.Ok? <==> d.Ok?)
      && (r.Ok? ==> r.value == (d.value.0, d.value.1, d.value.2) && br.Stream() == d.value.3)
      && (r.Err? ==> r.error == d.error)
  {
    var hlit := br.Read(5);
    if hlit.Err? {
      return Err(hlit.error);
    }
    var hdist := br.Read(5);
    if hdist.Err? {
      return Err(hdist.error);
    }
    var hclen := br.Read(4);
    if hclen.Err? {
      return Err(hclen.error);
    }
    return Ok((hlit.value, hdist.value, hclen.value));
  }

  /** The lengths of both codes and the tables built from them. */
  method ReadCodesWith(br: BitReader, t: Table, nlit: nat, count: nat) returns (r: Result<Codes>)
    requires br.Valid() && WellShaped(t) && nlit <= count
    modifies br, br.buffer
    ensures br.Valid()
    ensures var d := CodesWith(t, nlit, count, old(br.Stream()));
      && (r.Ok? <==> d.Ok?)
      && (r.Ok? ==> r.value == d.value.0 && br.Stream() == d.value.1)
      && (r.Err? ==> r.error == d.error)
  {
    ghost var s0 := br.Stream();
    var lens := ReadRunLengths(br, t, count);
    if lens.Err? {
      return Err(lens.error);
    }
    DynamicBuildsSucceed(t, s0, count, nlit);
    var lit := BuildTable(lens.value[..nlit]);
    var dist := BuildTable(lens.value[nlit..]);
    return Ok(Codes(lit.value, dist.value));
  }

  /** What follows the header fields. */
  method ReadCodesAfterHeader(br: BitReader, hlit: nat, hdist: nat, hclen: nat) returns (r: Result<Codes>)
    requires br.Valid() && hclen < 16
    modifies br, br.buffer
    ensures br.Valid()
    ensures var d := CodesAfterHeader(hlit, hdist, hclen, old(br.Stream()));
      && (r.Ok? <==> d.Ok?)
      && (r.Ok? ==> r.value == d.value.0 && br.Stream() == d.value.1)
      && (r.Err? ==> r.error == d.error)
  {
    var clens := ReadClens(br, hclen + 4);
    if clens.Err? {
      return Err(clens.error);
    }
    var ct := BuildTable(clens.value);
    assert ct.value == Canonical(ClenLengths(old(br.Stream()), hclen + 4));
    assert br.Stream() == old(br.Stream())[3 * (hclen + 4)..];
    r := ReadCodesWith(br, ct.value, hlit + 257, hlit + 257 + hdist + 1);
  }

  /** `t2_z__read_dyn_huffman_tables`: the header fields, the code-length
      code, and the literal/length and distance codes. */
  method ReadDynamicCodes(br: BitReader) returns (r: Result<Codes>)
    requires br.Valid()
    modifies br, br.buffer
    ensures br.Valid()
    ensures var d := DynamicCodes(old(br.Stream()));
      && (r.Ok? <==> d.Ok?)
      && (r.Ok? ==> r.value == d.value.0 && br.Stream() == d.value.1)
      && (r.Err? ==> r.error == d.error)
  {
    var h := ReadHeader(br);
    if h.Err? {
      return Err(h.error);
    }
    r := ReadCodesAfterHeader(br, h.value.0, h.value.1, h.value.2);
  }
}
