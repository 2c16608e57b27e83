/** Canonical Huffman tables (t2_inflate.c:100-235, section 3.2.2 of
    RFC 1951).

    A table keeps, for each code length L in 1..15, a bucket holding the
    first code of that length and the symbols of that length in ascending
    order; the codes of length L are firstCode(L), firstCode(L)+1, ... in
    the order of the symbols.  `buckets[L - 1]` is the bucket of length L
    (the fifteen `HUFFMAN_LENGTH` structs of the source). */
module Huffman {
  import opened Common
  import opened Bits

  /** T2_Z__HUFFMAN_TABLE_MAX_LEN */
  const MaxCodeLength: nat := 15

  datatype Bucket = Bucket(firstCode: nat, symbols: seq<nat>)

  datatype Table = Table(minLength: nat, maxLength: nat, buckets: seq<Bucket>)

  predicate WellShaped(t: Table) {
    |t.buckets| == MaxCodeLength
  }

  /** `t2_z__huffman_tables`: the literal/length code and the distance
      code of a block. */
  datatype Codes = Codes(literal: Table, distance: Table)

  predicate CodesShaped(c: Codes) {
    WellShaped(c.literal) && WellShaped(c.distance)
  }

  /** Every code length can be given a bucket. */
  predicate LengthsInRange(lens: seq<nat>) {
    forall s :: 0 <= s < |lens| ==> lens[s] <= MaxCodeLength
  }

  // ---------------------------------------------------------------------
  // The canonical code of a list of code lengths

  /** The symbols in lo..hi-1 whose code length is L, in ascending order. */
  function SymbolsIn(lens: seq<nat>, L: nat, lo: nat, hi: nat): seq<nat>
    requires lo <= hi <= |lens|
    decreases hi - lo
  {
    if hi == lo then []
    else SymbolsIn(lens, L, lo, hi - 1) + (if lens[hi - 1] == L then [hi - 1] else [])
  }

  /** The symbols whose code length is L, in ascending order. */
  function SymbolsOf(lens: seq<nat>, L: nat): seq<nat> {
    SymbolsIn(lens, L, 0, |lens|)
  }

  /** The shortest nonzero code length (16 when there is none). */
  function MinLength(lens: seq<nat>): (r: nat)
    ensures 1 <= r <= 16
  {
    if |lens| == 0 then 16
    else
      var m := MinLength(lens[..|lens| - 1]);
      var x := lens[|lens| - 1];
      if x != 0 && x < m then x else m
  }

  /** The longest code length (0 when there is none). */
  function MaxLength(lens: seq<nat>): nat {
    if |lens| == 0 then 0
    else
      var m := MaxLength(lens[..|lens| - 1]);
      var x := lens[|lens| - 1];
      if x > m then x else m
  }

  /** The first code of length L: 0 for the shortest length, and from there
      up to the longest length the code after the last one of the previous
      length, shifted left by one (step 2 of section 3.2.2 of RFC 1951).
      Lengths outside min..max keep first code 0. */
  function FirstCode(lens: seq<nat>, L: nat): nat
    requires L >= 1
  {
    if L <= MinLength(lens) || L > MaxLength(lens) then 0
    else 2 * (FirstCode(lens, L - 1) + |SymbolsOf(lens, L - 1)|)
  }

  /** The table `t2_z__build_huffman_table` builds from a list of code lengths
      whose values are all in range. */
  function Canonical(lens: seq<nat>): (t: Table)
    ensures WellShaped(t)
  {
    Table(MinLength(lens), MaxLength(lens),
          seq(MaxCodeLength, i requires 0 <= i < MaxCodeLength => Bucket(FirstCode(lens, i + 1), SymbolsOf(lens, i + 1))))
  }

  /** The result of `t2_z__build_huffman_table`: a code length above 15 has
      no bucket, which the source rejects ("Invalid code length"). */
  function Build(lens: seq<nat>): (r: Result<Table>)
    ensures r.Ok? <==> LengthsInRange(lens)
    ensures r.Ok? ==> r.value == Canonical(lens)
  {
    if LengthsInRange(lens) then Ok(Canonical(lens)) else Err(InvalidCodeLength)
  }

  /** Every code of length L fits in L bits: the code lengths do not
      oversubscribe the code space. */
  predicate Fits(lens: seq<nat>) {
    forall L :: 1 <= L <= MaxCodeLength ==> FirstCode(lens, L) + |SymbolsOf(lens, L)| <= Pow2(L)
  }

  /** The code of symbol s: the first code of its length plus the number of
      smaller symbols of that length. */
  function CodeOf(lens: seq<nat>, s: nat): nat
    requires s < |lens| && lens[s] >= 1
  {
    FirstCode(lens, lens[s]) + |SymbolsIn(lens, lens[s], 0, s)|
  }

  /** The bits of the code of s, most significant first. */
  function CodeBits(lens: seq<nat>, s: nat): (r: seq<bool>)
    requires s < |lens| && lens[s] >= 1
    ensures |r| == lens[s]
  {
    MsbBits(CodeOf(lens, s), lens[s])
  }

  // ---------------------------------------------------------------------
  // Properties of the buckets

  /** A bucket holds exactly the symbols of its length. */
  lemma {:induction false} SymbolsInMembers(lens: seq<nat>, L: nat, lo: nat, hi: nat)
    requires lo <= hi <= |lens|
    ensures forall x :: x in SymbolsIn(lens, L, lo, hi) <==> lo <= x < hi && lens[x] == L
    decreases hi - lo
  {
    if hi > lo {
      SymbolsInMembers(lens, L, lo, hi - 1);
    }
  }

  predicate Ascending(r: seq<nat>) {
    forall i, j :: 0 <= i < j < |r| ==> r[i] < r[j]
  }

  /** A bucket lists its symbols in strictly ascending order. */
  lemma {:induction false} SymbolsInAscending(lens: seq<nat>, L: nat, lo: nat, hi: nat)
    requires lo <= hi <= |lens|
    ensures Ascending(SymbolsIn(lens, L, lo, hi))
    decreases hi - lo
  {
    if hi > lo {
      SymbolsInAscending(lens, L, lo, hi - 1);
      SymbolsInMembers(lens, L, lo, hi - 1);
      var p := SymbolsIn(lens, L, lo, hi - 1);
      if lens[hi - 1] == L {
        var r := p + [hi - 1];
        assert SymbolsIn(lens, L, lo, hi) == r;
        forall i, j | 0 <= i < j < |r|
          ensures r[i] < r[j]
        {
          if j < |p| {
            assert r[i] == p[i] && r[j] == p[j];
          } else {
            assert r[i] == p[i] && p[i] in p;
          }
        }
      } else {
        assert SymbolsIn(lens, L, lo, hi) == p;
      }
    }
  }

  /** The symbols of lo..hi-1 are those of lo..mid-1 followed by those of
      mid..hi-1. */
  lemma {:induction false} SymbolsInSplit(lens: seq<nat>, L: nat, lo: nat, mid: nat, hi: nat)
    requires lo <= mid <= hi <= |lens|
    ensures SymbolsIn(lens, L, lo, hi) == SymbolsIn(lens, L, lo, mid) + SymbolsIn(lens, L, mid, hi)
    decreases hi - mid
  {
    if hi > mid {
      SymbolsInSplit(lens, L, lo, mid, hi - 1);
    }
  }

  /** A stretch of symbols that all have the same code length v. */
  lemma {:induction false} SymbolsInConstant(lens: seq<nat>, L: nat, lo: nat, hi: nat, v: nat)
    requires lo <= hi <= |lens|
    requires forall x :: lo <= x < hi ==> lens[x] == v
    ensures SymbolsIn(lens, L, lo, hi) == if v == L then Range(lo, hi) else []
    decreases hi - lo
  {
    if hi > lo {
      SymbolsInConstant(lens, L, lo, hi - 1, v);
    }
  }

  /** A stretch of symbols none of which has code length L. */
  lemma {:induction false} SymbolsInNone(lens: seq<nat>, L: nat, lo: nat, hi: nat)
    requires lo <= hi <= |lens|
    requires forall x :: lo <= x < hi ==> lens[x] != L
    ensures SymbolsIn(lens, L, lo, hi) == []
    decreases hi - lo
  {
    if hi > lo {
      SymbolsInNone(lens, L, lo, hi - 1);
    }
  }

  /** When no symbol outside lo..hi-1 has length L, those are all of them. */
  lemma {:induction false} SymbolsOfOnly(lens: seq<nat>, L: nat, lo: nat, hi: nat)
    requires lo <= hi <= |lens|
    requires SymbolsIn(lens, L, 0, lo) == [] && SymbolsIn(lens, L, hi, |lens|) == []
    ensures SymbolsOf(lens, L) == SymbolsIn(lens, L, lo, hi)
  {
    SymbolsInSplit(lens, L, 0, lo, |lens|);
    SymbolsInSplit(lens, L, lo, hi, |lens|);
  }

  /** When no symbol in lo..hi-1 has length L, the others are all of them. */
  lemma {:induction false} SymbolsOfGap(lens: seq<nat>, L: nat, lo: nat, hi: nat)
    requires lo <= hi <= |lens|
    requires SymbolsIn(lens, L, lo, hi) == []
    ensures SymbolsOf(lens, L) == SymbolsIn(lens, L, 0, lo) + SymbolsIn(lens, L, hi, |lens|)
  {
    SymbolsInSplit(lens, L, 0, lo, |lens|);
    SymbolsInSplit(lens, L, lo, hi, |lens|);
  }

  /** lo, lo+1, ..., hi-1 */
  function Range(lo: nat, hi: nat): (r: seq<nat>)
    requires lo <= hi
    ensures |r| == hi - lo && forall i :: 0 <= i < |r| ==> r[i] == lo + i
  {
    seq(hi - lo, i requires 0 <= i < hi - lo => lo + i)
  }

  /** The bucket sizes count the symbols of each length. */
  lemma {:induction false} SymbolsInCount(lens: seq<nat>, L: nat, lo: nat, hi: nat)
    requires lo <= hi <= |lens|
    ensures |SymbolsIn(lens, L, lo, hi)| == |set x | lo <= x < hi && lens[x] == L|
    decreases hi - lo
  {
    if hi > lo {
      SymbolsInCount(lens, L, lo, hi - 1);
      var before := set x | lo <= x < hi - 1 && lens[x] == L;
      var after := set x | lo <= x < hi && lens[x] == L;
      if lens[hi - 1] == L {
        assert after == before + {hi - 1};
      } else {
        assert after == before;
      }
    }
  }

  /** A symbol of length L sits in its bucket at the index that CodeOf adds
      to the first code, and that index is the only one holding it. */
  lemma {:induction false} SymbolIndex(lens: seq<nat>, s: nat)
    requires s < |lens|
    ensures var r := SymbolsOf(lens, lens[s]); var k := |SymbolsIn(lens, lens[s], 0, s)|;
      k < |r| && r[k] == s && forall i :: 0 <= i < |r| && r[i] == s ==> i == k
  {
    var L := lens[s];
    SymbolsInSplit(lens, L, 0, s, |lens|);
    SymbolsInSplit(lens, L, s, s + 1, |lens|);
    SymbolsInAscending(lens, L, 0, |lens|);
    var r := SymbolsOf(lens, L);
    var k := |SymbolsIn(lens, L, 0, s)|;
    assert SymbolsIn(lens, L, s, s + 1) == [s];
    assert r[k] == s;
  }

  /** The shortest and longest code lengths are the extreme nonzero lengths,
      and min 16 / max 0 means no symbol has a code. */
  lemma {:induction false} LengthBounds(lens: seq<nat>)
    requires LengthsInRange(lens)
    ensures MaxLength(lens) <= MaxCodeLength && 1 <= MinLength(lens) <= 16
    ensures forall s :: 0 <= s < |lens| && lens[s] != 0 ==> MinLength(lens) <= lens[s] <= MaxLength(lens)
    ensures MaxLength(lens) == 0 <==> forall s :: 0 <= s < |lens| ==> lens[s] == 0
    ensures MaxLength(lens) == 0 <==> MinLength(lens) == 16
    ensures MaxLength(lens) != 0 ==> exists s :: 0 <= s < |lens| && lens[s] == MinLength(lens)
    ensures MaxLength(lens) != 0 ==> exists s :: 0 <= s < |lens| && lens[s] == MaxLength(lens)
  {
    if |lens| > 0 {
      var p := lens[..|lens| - 1];
      assert forall s :: 0 <= s < |p| ==> p[s] == lens[s];
      LengthBounds(p);
      var x := lens[|lens| - 1];
      if MaxLength(p) != 0 {
        var w1 :| 0 <= w1 < |p| && p[w1] == MinLength(p);
        var w2 :| 0 <= w2 < |p| && p[w2] == MaxLength(p);
        assert lens[w1] == MinLength(p) && lens[w2] == MaxLength(p);
      }
      assert lens[|lens| - 1] == x;
    }
  }

  // ---------------------------------------------------------------------
  // Properties of the first codes

  /** From one length to a longer one, the first code grows at least as the
      code after the last one of the shorter length, shifted left. */
  lemma {:induction false} FirstCodeGrowth(lens: seq<nat>, j: nat, L: nat)
    requires MinLength(lens) <= j < L <= MaxLength(lens)
    ensures FirstCode(lens, L) >= (FirstCode(lens, j) + |SymbolsOf(lens, j)|) * Pow2(L - j)
    decreases L - j
  {
    var x := FirstCode(lens, j) + |SymbolsOf(lens, j)|;
    var y := FirstCode(lens, L - 1);
    var p := Pow2(L - 1 - j);
    assert FirstCode(lens, L) == 2 * (y + |SymbolsOf(lens, L - 1)|);
    assert Pow2(L - j) == 2 * p;
    if L > j + 1 {
      FirstCodeGrowth(lens, j, L - 1);
      Twice(x, p, y);
    } else {
      assert p == 1;
    }
  }

  lemma {:induction false} Twice(x: nat, p: nat, y: nat)
    requires y >= x * p
    ensures 2 * y >= x * (2 * p)
  {
  }

  /** Codes of a longer length, cut down to a shorter length, lie above all
      codes of the shorter length: no code is a prefix of another. */
  lemma {:induction false} PrefixAbove(lens: seq<nat>, s: nat, j: nat)
    requires s < |lens| && lens[s] != 0
    requires MinLength(lens) <= j < lens[s] <= MaxLength(lens)
    ensures CodeOf(lens, s) / Pow2(lens[s] - j) >= FirstCode(lens, j) + |SymbolsOf(lens, j)|
  {
    var x := FirstCode(lens, j) + |SymbolsOf(lens, j)|;
    var p := Pow2(lens[s] - j);
    FirstCodeGrowth(lens, j, lens[s]);
    assert CodeOf(lens, s) >= x * p;
    DivAtLeast(CodeOf(lens, s), p, x);
  }

  /** The bucket of length L in the canonical table. */
  lemma {:induction false} CanonicalBucket(lens: seq<nat>, L: nat)
    requires 1 <= L <= MaxCodeLength
    ensures Canonical(lens).buckets[L - 1] == Bucket(FirstCode(lens, L), SymbolsOf(lens, L))
  {
  }

  /** Cut down to a shorter length j, the code of s lies above every code
      of length j: no code is a prefix of another. */
  lemma {:induction false} PrefixOutside(lens: seq<nat>, s: nat, j: nat)
    requires LengthsInRange(lens) && Fits(lens)
    requires s < |lens| && lens[s] != 0 && MinLength(lens) <= j < lens[s]
    ensures MsbValue(CodeBits(lens, s)[..j]) >= FirstCode(lens, j) + |SymbolsOf(lens, j)|
  {
    LengthBounds(lens);
    CodeFits(lens, s);
    MsbPrefixValue(CodeOf(lens, s), lens[s], j);
    PrefixAbove(lens, s, j);
  }

  /** The bits of the code of s read back give the code. */
  lemma {:induction false} CodeValue(lens: seq<nat>, s: nat)
    requires LengthsInRange(lens) && Fits(lens)
    requires s < |lens| && lens[s] != 0
    ensures MsbValue(CodeBits(lens, s)) == CodeOf(lens, s)
  {
    CodeFits(lens, s);
    MsbRoundTrip(CodeOf(lens, s), lens[s]);
    DivModUnique(CodeOf(lens, s), Pow2(lens[s]), 0, CodeOf(lens, s));
  }

  /** The code of a symbol fits in its length. */
  lemma {:induction false} CodeFits(lens: seq<nat>, s: nat)
    requires LengthsInRange(lens) && Fits(lens)
    requires s < |lens| && lens[s] != 0
    ensures FirstCode(lens, lens[s]) <= CodeOf(lens, s) < FirstCode(lens, lens[s]) + |SymbolsOf(lens, lens[s])|
    ensures CodeOf(lens, s) < Pow2(lens[s])
  {
    SymbolIndex(lens, s);
  }

  // ---------------------------------------------------------------------
  // Decoding

  /** `t2_z__huffman_table_read` once `len` bits with value `code` have been
      read: the symbol of `code` if it is a code of length `len`, otherwise
      one more bit.  A length with no bucket stops the decoder ("Invalid code
      length"); so does a code longer than the table's longest. */
  function DecodeAt(t: Table, bits: seq<bool>, code: nat, len: nat): (r: Result<(nat, seq<bool>)>)
    requires WellShaped(t)
    ensures r.Ok? ==> 1 <= len <= MaxCodeLength && |r.value.1| <= |bits|
    decreases 16 - len
  {
    if len < 1 || len > MaxCodeLength then Err(InvalidCodeLength)
    else
      var b := t.buckets[len - 1];
      if b.firstCode <= code < b.firstCode + |b.symbols| then Ok((b.symbols[code - b.firstCode], bits))
      else if |bits| == 0 then Err(BufferExhausted)
      else if len + 1 > t.maxLength then Err(InvalidCode)
      else
        DecodeAt(t, bits[1..], 2 * code + Bit(bits[0]), len + 1)
  }

  /** `t2_z__huffman_table_read`: reads the shortest code length's worth of
      bits most significant first, then one bit at a time until the code
      falls in the range of its length.  A symbol always takes at least one
      bit. */
  function Decode(t: Table, bits: seq<bool>): (r: Result<(nat, seq<bool>)>)
    requires WellShaped(t)
    ensures r.Ok? ==> |r.value.1| < |bits|
  {
    if |bits| < t.minLength then Err(BufferExhausted)
    else
      DecodeAt(t, bits[t.minLength..], MsbValue(bits[..t.minLength]), t.minLength)
  }

  /** The code `code` of length `len` is the table's code for s. */
  predicate Hits(t: Table, code: nat, len: nat, s: nat)
    requires WellShaped(t) && 1 <= len <= MaxCodeLength
  {
    var b := t.buckets[len - 1];
    b.firstCode <= code < b.firstCode + |b.symbols| && b.symbols[code - b.firstCode] == s
  }

  /** The code `code` of length `len` is no code of the table. */
  predicate Misses(t: Table, code: nat, len: nat)
    requires WellShaped(t) && 1 <= len <= MaxCodeLength
  {
    var b := t.buckets[len - 1];
    !(b.firstCode <= code < b.firstCode + |b.symbols|)
  }

  /** Decoding follows the bits of b from length j on: it misses at every
      length short of |b| and hits s at length |b|. */
  lemma {:induction false} DecodeAtPath(t: Table, b: seq<bool>, j: nat, rest: seq<bool>, s: nat)
    requires WellShaped(t) && 1 <= j <= |b| <= MaxCodeLength && |b| <= t.maxLength
    requires forall i :: j <= i < |b| ==> Misses(t, MsbValue(b[..i]), i)
    requires Hits(t, MsbValue(b), |b|, s)
    ensures DecodeAt(t, b[j..] + rest, MsbValue(b[..j]), j) == Ok((s, rest))
    decreases |b| - j
  {
    var bits := b[j..] + rest;
    if j == |b| {
      assert b[..j] == b;
      assert bits == rest;
    } else {
      assert bits[0] == b[j];
      assert bits[1..] == b[j + 1..] + rest;
      MsbValueSnoc(b, j);
      DecodeAtPath(t, b, j + 1, rest, s);
    }
  }

  /** Decoding bits that start with at least the shortest length's worth
      of b goes on from the first bits of b. */
  lemma {:induction false} DecodeAppend(t: Table, b: seq<bool>, rest: seq<bool>)
    requires WellShaped(t) && t.minLength <= |b|
    ensures Decode(t, b + rest) == DecodeAt(t, b[t.minLength..] + rest, MsbValue(b[..t.minLength]), t.minLength)
  {
    var m := t.minLength;
    var bits := b + rest;
    assert bits[..m] == b[..m];
    assert bits[m..] == b[m..] + rest;
  }

  /** Round trip: with code lengths that fit, the canonical table decodes
      the code of every symbol that has one back to that symbol. */
  lemma {:induction false} DecodeCodeBits(lens: seq<nat>, s: nat, rest: seq<bool>)
    requires LengthsInRange(lens) && Fits(lens)
    requires s < |lens| && lens[s] != 0
    ensures Decode(Canonical(lens), CodeBits(lens, s) + rest) == Ok((s, rest))
  {
    var t := Canonical(lens);
    var b := CodeBits(lens, s);
    var L := lens[s];
    LengthBounds(lens);
    var m := MinLength(lens);
    forall i | m <= i < L
      ensures Misses(t, MsbValue(b[..i]), i)
    {
      PrefixOutside(lens, s, i);
      CanonicalBucket(lens, i);
    }
    CodeValue(lens, s);
    SymbolIndex(lens, s);
    CanonicalBucket(lens, L);
    assert Hits(t, MsbValue(b), L, s);
    DecodeAtPath(t, b, m, rest, s);
    DecodeAppend(t, b, rest);
  }

  /** A decode that goes on past a miss reads one more bit. */
  lemma {:induction false} DecodeAtMiss(t: Table, bits: seq<bool>, code: nat, len: nat)
    requires WellShaped(t) && 1 <= len && DecodeAt(t, bits, code, len).Ok?
    requires var b := t.buckets[len - 1]; !(b.firstCode <= code < b.firstCode + |b.symbols|)
    ensures |bits| > 0 && len < MaxCodeLength
    ensures DecodeAt(t, bits, code, len) == DecodeAt(t, bits[1..], 2 * code + Bit(bits[0]), len + 1)
  {
  }

  /** Shifting in the first k bits is shifting in the first bit, then the
      k - 1 after it. */
  lemma {:induction false} ShiftInFirst(code: nat, bits: seq<bool>, k: nat)
    requires 1 <= k <= |bits|
    ensures ShiftIn(code, bits[..k]) == ShiftIn(2 * code + Bit(bits[0]), bits[1..][..k - 1])
    ensures bits[1..][k - 1..] == bits[k..]
  {
    assert bits[..k][0] == bits[0];
    assert bits[..k][1..] == bits[1..][..k - 1];
  }

  /** A successful decode stops at a hit: the k bits it reads after the
      `len` already in `code` complete a code of the table for s, and the
      rest of the bits follows them. */
  lemma {:induction false} DecodeAtHit(t: Table, bits: seq<bool>, code: nat, len: nat, s: nat, rest: seq<bool>)
    requires WellShaped(t) && 1 <= len
    requires DecodeAt(t, bits, code, len).Ok? && DecodeAt(t, bits, code, len).value == (s, rest)
    ensures |rest| <= |bits| && len + |bits| - |rest| <= MaxCodeLength
    ensures bits[|bits| - |rest|..] == rest
    ensures Hits(t, ShiftIn(code, bits[..|bits| - |rest|]), len + |bits| - |rest|, s)
    decreases 16 - len
  {
    var b := t.buckets[len - 1];
    if b.firstCode <= code < b.firstCode + |b.symbols| {
      DecodeAtHere(t, bits, code, len, s, rest);
    } else {
      DecodeAtMiss(t, bits, code, len);
      DecodeAtHit(t, bits[1..], 2 * code + Bit(bits[0]), len + 1, s, rest);
      HitAfterMiss(t, bits, code, len, s, rest);
    }
  }

  /** What DecodeAtHit states after one more bit, it states before it. */
  lemma {:induction false} HitAfterMiss(t: Table, bits: seq<bool>, code: nat, len: nat, s: nat, rest: seq<bool>)
    requires WellShaped(t) && 1 <= len && |bits| > 0
    requires var bits', code' := bits[1..], 2 * code + Bit(bits[0]);
      && |rest| <= |bits'| && len + 1 + |bits'| - |rest| <= MaxCodeLength
      && bits'[|bits'| - |rest|..] == rest
      && Hits(t, ShiftIn(code', bits'[..|bits'| - |rest|]), len + 1 + |bits'| - |rest|, s)
    ensures |rest| <= |bits| && len + |bits| - |rest| <= MaxCodeLength
    ensures bits[|bits| - |rest|..] == rest
    ensures Hits(t, ShiftIn(code, bits[..|bits| - |rest|]), len + |bits| - |rest|, s)
  {
    var k := |bits| - |rest|;
    ShiftInFirst(code, bits, k);
  }

  /** A decode that hits at once reads no more bits. */
  lemma {:induction false} DecodeAtHere(t: Table, bits: seq<bool>, code: nat, len: nat, s: nat, rest: seq<bool>)
    requires WellShaped(t) && 1 <= len
    requires DecodeAt(t, bits, code, len) == Ok((s, rest))
    requires var b := t.buckets[len - 1]; b.firstCode <= code < b.firstCode + |b.symbols|
    ensures rest == bits && len <= MaxCodeLength && Hits(t, ShiftIn(code, bits[..0]), len, s)
  {
    assert bits[..0] == [];
  }

  /** A hit in the canonical table is the code of its symbol. */
  lemma {:induction false} CanonicalHit(lens: seq<nat>, q: seq<bool>, s: nat)
    requires LengthsInRange(lens) && 1 <= |q| <= MaxCodeLength
    requires Hits(Canonical(lens), MsbValue(q), |q|, s)
    ensures s < |lens| && lens[s] == |q| && q == CodeBits(lens, s)
  {
    var j := |q|;
    var code := MsbValue(q);
    CanonicalBucket(lens, j);
    var r := SymbolsOf(lens, j);
    var k := code - FirstCode(lens, j);
    assert r[k] == s && r[k] in r;
    SymbolsInMembers(lens, j, 0, |lens|);
    SymbolIndex(lens, s);
    assert CodeOf(lens, s) == code;
    MsbBitsOfValue(q);
  }

  /** Splitting bits after a prefix of m + k bits. */
  lemma {:induction false} SplitAfter(bits: seq<bool>, m: nat, k: nat, rest: seq<bool>)
    requires m + k <= |bits| && bits[m..][k..] == rest
    ensures bits[..m] + bits[m..][..k] == bits[..m + k]
    ensures bits == bits[..m + k] + rest
  {
  }

  /** A successful decode reads a code of the table, then leaves the rest
      of the bits. */
  lemma {:induction false} DecodeReads(t: Table, bits: seq<bool>, s: nat, rest: seq<bool>)
    requires WellShaped(t) && 1 <= t.minLength && Decode(t, bits) == Ok((s, rest))
    ensures |rest| < |bits| && |bits| - |rest| <= MaxCodeLength
    ensures bits == bits[..|bits| - |rest|] + rest
    ensures Hits(t, MsbValue(bits[..|bits| - |rest|]), |bits| - |rest|, s)
  {
    var m := t.minLength;
    var pre, post := bits[..m], bits[m..];
    assert DecodeAt(t, post, MsbValue(pre), m) == Ok((s, rest));
    DecodeAtHit(t, post, MsbValue(pre), m, s, rest);
    var k := |post| - |rest|;
    assert |bits| - |rest| == m + k;
    ShiftInValue(pre, post[..k]);
    SplitAfter(bits, m, k, rest);
    assert MsbValue(bits[..m + k]) == ShiftIn(MsbValue(pre), post[..k]);
  }

  /** Whatever the canonical table decodes is a symbol with a code, read
      from exactly the bits of its code. */
  lemma {:induction false} DecodeSound(lens: seq<nat>, bits: seq<bool>)
    requires LengthsInRange(lens)
    requires Decode(Canonical(lens), bits).Ok?
    ensures var (s, rest) := Decode(Canonical(lens), bits).value;
      s < |lens| && lens[s] != 0 && bits == CodeBits(lens, s) + rest
  {
    var (s, rest) := Decode(Canonical(lens), bits).value;
    DecodeReads(Canonical(lens), bits, s, rest);
    CanonicalHit(lens, bits[..|bits| - |rest|], s);
  }

  // ---------------------------------------------------------------------
  // Building

  /** `t2_z__build_huffman_table`: a first loop appends every symbol with a
      nonzero length to its bucket and tracks the shortest and longest
      length; a second loop sets the first codes from min+1 to max. */
  method BuildTable(lens: seq<nat>) returns (r: Result<Table>)
    ensures r == Build(lens)
  {
    var ok, minL, maxL, buckets := GroupSymbols(lens);
    if !ok {
      return Err(InvalidCodeLength);
    }
    buckets := SetFirstCodes(lens, minL, maxL, buckets);
    r := Ok(Table(minL, maxL, buckets));
  }

  /** The first loop of `t2_z__build_huffman_table`: the symbols of each
      length in ascending order, and the shortest and longest length; a
      length above 15 stops it. */
  method GroupSymbols(lens: seq<nat>) returns (ok: bool, minL: nat, maxL: nat, buckets: seq<Bucket>)
    ensures ok <==> LengthsInRange(lens)
    ensures ok ==> minL == MinLength(lens) && maxL == MaxLength(lens) && |buckets| == MaxCodeLength
    ensures ok ==> forall i :: 0 <= i < MaxCodeLength ==> buckets[i] == Bucket(0, SymbolsOf(lens, i + 1))
  {
    minL, maxL := 16, 0;
    buckets := seq(MaxCodeLength, _ => Bucket(0, []));
    var symbol := 0;
    while symbol < |lens|
      invariant 0 <= symbol <= |lens|
      invariant forall x :: 0 <= x < symbol ==> lens[x] <= MaxCodeLength
      invariant minL == MinLength(lens[..symbol]) && maxL == MaxLength(lens[..symbol])
      invariant |buckets| == MaxCodeLength
      invariant forall i :: 0 <= i < MaxCodeLength ==> buckets[i] == Bucket(0, SymbolsIn(lens, i + 1, 0, symbol))
    {
      var L := lens[symbol];
      assert lens[..symbol + 1][..symbol] == lens[..symbol];
      if L != 0 {
        if L > MaxCodeLength {
          return false, minL, maxL, buckets;
        }
        buckets := buckets[L - 1 := Bucket(0, buckets[L - 1].symbols + [symbol])];
        if L < minL {
          minL := L;
        }
        if L > maxL {
          maxL := L;
        }
      }
      symbol := symbol + 1;
    }
    assert lens[..|lens|] == lens;
    ok := true;
  }

  /** The second loop of `t2_z__build_huffman_table`: each length from
      min+1 to max starts where the codes of the length below end, doubled. */
  method SetFirstCodes(lens: seq<nat>, minL: nat, maxL: nat, buckets: seq<Bucket>) returns (r: seq<Bucket>)
    requires LengthsInRange(lens) && minL == MinLength(lens) && maxL == MaxLength(lens)
    requires |buckets| == MaxCodeLength
    requires forall i :: 0 <= i < MaxCodeLength ==> buckets[i] == Bucket(0, SymbolsOf(lens, i + 1))
    ensures r == Canonical(lens).buckets
  {
    LengthBounds(lens);
    r := buckets;
    var L := minL + 1;
    while L <= maxL
      invariant minL + 1 <= L && (minL + 1 <= maxL ==> L <= maxL + 1)
      invariant |r| == MaxCodeLength
      invariant forall i :: 0 <= i < MaxCodeLength ==>
        r[i] == Bucket(if i + 1 < L then FirstCode(lens, i + 1) else 0, SymbolsOf(lens, i + 1))
    {
      var prev := r[L - 2];
      r := r[L - 1 := Bucket((prev.firstCode + |prev.symbols|) * 2, r[L - 1].symbols)];
      L := L + 1;
    }
    assert r == Canonical(lens).buckets;
  }
}
