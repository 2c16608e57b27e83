/** The fixed Huffman codes of section 3.2.6 of RFC 1951: the table
    written out by hand in t2_inflate.c:319-378 and the one
    t2_inflate.h:321-353 builds on first use. */
module Fixed {
  import opened Common
  import opened Bits
  import opened Huffman

  /** The fixed code length of literal/length symbol s. */
  function FixedLiteralLength(s: nat): (r: nat)
    ensures 7 <= r <= 9
  {
    if s <= 143 then 8
    else if s <= 255 then 9
    else if s <= 279 then 7
    else 8
  }

  /** The code lengths of the 288 literal/length symbols. */
  const FixedLiteralLengths: seq<nat> := LiteralLengthsBelow(288)

  /** The 32 distance symbols all have 5-bit codes. */
  const FixedDistanceLengths: seq<nat> := Repeated(32, 5)

  /** The fixed code lengths of the symbols below n. */
  function LiteralLengthsBelow(n: nat): (r: seq<nat>)
    ensures |r| == n && forall s :: 0 <= s < n ==> r[s] == FixedLiteralLength(s)
  {
    seq(n, s requires 0 <= s < n => FixedLiteralLength(s))
  }

  /** n copies of v. */
  function Repeated(n: nat, v: nat): (r: seq<nat>)
    ensures |r| == n && forall i :: 0 <= i < n ==> r[i] == v
  {
    seq(n, _ => v)
  }

  const NoCodes: Bucket := Bucket(0, [])

  /** The hand-written literal/length table of t2_inflate.c:324-373: lengths
      7, 8 and 9, with first codes 0, 0x30 and 0x190. */
  const HandWrittenLiteral: Table :=
    Table(7, 9,
          [NoCodes, NoCodes, NoCodes, NoCodes, NoCodes, NoCodes,
           Bucket(0, Range(256, 280)),
           Bucket(0x30, Range(0, 144) + Range(280, 288)),
           Bucket(0x190, Range(144, 256)),
           NoCodes, NoCodes, NoCodes, NoCodes, NoCodes, NoCodes])

  // ---------------------------------------------------------------------
  // The hand-written table is the canonical one

  /** The symbols of each length in the fixed literal/length code. */
  lemma {:induction false} FixedLiteralSymbols(L: nat)
    ensures SymbolsOf(FixedLiteralLengths, L) ==
      if L == 7 then Range(256, 280)
      else if L == 8 then Range(0, 144) + Range(280, 288)
      else if L == 9 then Range(144, 256)
      else []
  {
    var lens := FixedLiteralLengths;
    if L == 7 {
      Symbols7(lens);
    } else if L == 8 {
      Symbols8(lens);
    } else if L == 9 {
      Symbols9(lens);
    } else {
      SymbolsInNone(lens, L, 0, 288);
    }
  }

  lemma {:induction false} Symbols7(lens: seq<nat>)
    requires |lens| == 288 && forall x :: 0 <= x < 288 ==> lens[x] == FixedLiteralLength(x)
    ensures SymbolsOf(lens, 7) == Range(256, 280)
  {
    SymbolsInNone(lens, 7, 0, 256);
    SymbolsInNone(lens, 7, 280, 288);
    SymbolsOfOnly(lens, 7, 256, 280);
    SymbolsInConstant(lens, 7, 256, 280, 7);
  }

  lemma {:induction false} Symbols8(lens: seq<nat>)
    requires |lens| == 288 && forall x :: 0 <= x < 288 ==> lens[x] == FixedLiteralLength(x)
    ensures SymbolsOf(lens, 8) == Range(0, 144) + Range(280, 288)
  {
    SymbolsInNone(lens, 8, 144, 280);
    SymbolsOfGap(lens, 8, 144, 280);
    SymbolsInConstant(lens, 8, 0, 144, 8);
    SymbolsInConstant(lens, 8, 280, 288, 8);
  }

  lemma {:induction false} Symbols9(lens: seq<nat>)
    requires |lens| == 288 && forall x :: 0 <= x < 288 ==> lens[x] == FixedLiteralLength(x)
    ensures SymbolsOf(lens, 9) == Range(144, 256)
  {
    SymbolsInNone(lens, 9, 0, 144);
    SymbolsInNone(lens, 9, 256, 288);
    SymbolsOfOnly(lens, 9, 144, 256);
    SymbolsInConstant(lens, 9, 144, 256, 9);
  }

  lemma {:induction false} FixedLiteralExtremes()
    ensures MinLength(FixedLiteralLengths) == 7 && MaxLength(FixedLiteralLengths) == 9
    ensures LengthsInRange(FixedLiteralLengths)
  {
    var lens := FixedLiteralLengths;
    assert LengthsInRange(lens);
    LengthBounds(lens);
    assert lens[256] == 7 && lens[144] == 9;
  }

  lemma {:induction false} FixedLiteralFirstCodes()
    ensures forall L :: 1 <= L <= MaxCodeLength ==>
      FirstCode(FixedLiteralLengths, L) == if L == 8 then 0x30 else if L == 9 then 0x190 else 0
  {
    var lens := FixedLiteralLengths;
    FixedLiteralExtremes();
    FixedLiteralSymbols(7);
    FixedLiteralSymbols(8);
    assert FirstCode(lens, 7) == 0;
    assert FirstCode(lens, 8) == 0x30;
    assert FirstCode(lens, 9) == 0x190;
  }

  /** The buckets of the hand-written table, length by length. */
  lemma {:induction false} HandWrittenBucket(L: nat)
    requires 1 <= L <= MaxCodeLength
    ensures HandWrittenLiteral.buckets[L - 1] ==
      Bucket(if L == 8 then 0x30 else if L == 9 then 0x190 else 0,
             if L == 7 then Range(256, 280)
             else if L == 8 then Range(0, 144) + Range(280, 288)
             else if L == 9 then Range(144, 256)
             else [])
  {
    var b := HandWrittenLiteral.buckets;
    if L < 7 {
      assert b[L - 1] == NoCodes;
    } else if L > 9 {
      assert b[L - 1] == NoCodes;
    }
  }

  /** The table written out in t2_inflate.c is the one the build makes
      from the fixed code lengths (the equivalence the comment at
      t2_inflate.c:319-321 claims). */
  lemma {:induction false} HandWrittenIsCanonical()
    ensures Build(FixedLiteralLengths) == Ok(HandWrittenLiteral)
  {
    var lens := FixedLiteralLengths;
    FixedLiteralExtremes();
    FixedLiteralFirstCodes();
    var t := Canonical(lens);
    forall i | 0 <= i < MaxCodeLength
      ensures t.buckets[i] == HandWrittenLiteral.buckets[i]
    {
      CanonicalBucket(lens, i + 1);
      FixedLiteralSymbols(i + 1);
      HandWrittenBucket(i + 1);
    }
    assert t.buckets == HandWrittenLiteral.buckets;
  }

  /** The codes of the fixed literal/length code are those tabulated in
      section 3.2.6 of RFC 1951: 0..143 are 00110000 onwards in 8 bits,
      144..255 are 110010000 onwards in 9 bits, 256..279 are 0000000
      onwards in 7 bits and 280..287 are 11000000 onwards in 8 bits. */
  lemma {:induction false} FixedLiteralCodes(s: nat)
    requires s < 288
    ensures var lens := FixedLiteralLengths;
      if s <= 143 then lens[s] == 8 && CodeOf(lens, s) == 0x30 + s
      else if s <= 255 then lens[s] == 9 && CodeOf(lens, s) == 0x190 + (s - 144)
      else if s <= 279 then lens[s] == 7 && CodeOf(lens, s) == s - 256
      else lens[s] == 8 && CodeOf(lens, s) == 0xC0 + (s - 280)
  {
    if s <= 143 {
      CodesLow8(s);
    } else if s <= 255 {
      Codes9(s);
    } else if s <= 279 {
      Codes7(s);
    } else {
      CodesHigh8(s);
    }
  }

  lemma {:induction false} CodesLow8(s: nat)
    requires s <= 143
    ensures FixedLiteralLengths[s] == 8 && CodeOf(FixedLiteralLengths, s) == 0x30 + s
  {
    var lens := FixedLiteralLengths;
    FixedLiteralFirstCodes();
    assert FirstCode(lens, 8) == 0x30;
    SymbolsInConstant(lens, 8, 0, s, 8);
  }

  lemma {:induction false} Codes9(s: nat)
    requires 144 <= s <= 255
    ensures FixedLiteralLengths[s] == 9 && CodeOf(FixedLiteralLengths, s) == 0x190 + (s - 144)
  {
    var lens := FixedLiteralLengths;
    FixedLiteralFirstCodes();
    assert FirstCode(lens, 9) == 0x190;
    CodeIndexAfterGap(lens, 9, 144, s);
  }

  lemma {:induction false} Codes7(s: nat)
    requires 256 <= s <= 279
    ensures FixedLiteralLengths[s] == 7 && CodeOf(FixedLiteralLengths, s) == s - 256
  {
    var lens := FixedLiteralLengths;
    FixedLiteralFirstCodes();
    assert FirstCode(lens, 7) == 0;
    CodeIndexAfterGap(lens, 7, 256, s);
  }

  lemma {:induction false} CodesHigh8(s: nat)
    requires 280 <= s <= 287
    ensures FixedLiteralLengths[s] == 8 && CodeOf(FixedLiteralLengths, s) == 0xC0 + (s - 280)
  {
    var lens := FixedLiteralLengths;
    FixedLiteralFirstCodes();
    assert FirstCode(lens, 8) == 0x30;
    SymbolsInSplit(lens, 8, 0, 280, s);
    SymbolsInConstant(lens, 8, 280, s, 8);
    Symbols8Below280(lens);
  }

  /** Below a run of length-L symbols starting at lo, only the run
      counts when no earlier symbol has length L. */
  lemma {:induction false} CodeIndexAfterGap(lens: seq<nat>, L: nat, lo: nat, s: nat)
    requires lo <= s <= |lens|
    requires forall x :: 0 <= x < lo ==> lens[x] != L
    requires forall x :: lo <= x < s ==> lens[x] == L
    ensures |SymbolsIn(lens, L, 0, s)| == s - lo
  {
    SymbolsInSplit(lens, L, 0, lo, s);
    SymbolsInNone(lens, L, 0, lo);
    SymbolsInConstant(lens, L, lo, s, L);
  }

  lemma {:induction false} Symbols8Below280(lens: seq<nat>)
    requires |lens| == 288 && forall x :: 0 <= x < 288 ==> lens[x] == FixedLiteralLength(x)
    ensures |SymbolsIn(lens, 8, 0, 280)| == 144
  {
    SymbolsInSplit(lens, 8, 0, 144, 280);
    SymbolsInConstant(lens, 8, 0, 144, 8);
    SymbolsInNone(lens, 8, 144, 280);
  }

  /** The fixed literal/length code is a complete prefix code: every
      length's codes fit in its bits. */
  lemma {:induction false} FixedLiteralFits()
    ensures LengthsInRange(FixedLiteralLengths) && Fits(FixedLiteralLengths)
  {
    var lens := FixedLiteralLengths;
    FixedLiteralExtremes();
    FixedLiteralFirstCodes();
    forall L | 1 <= L <= MaxCodeLength
      ensures FirstCode(lens, L) + |SymbolsOf(lens, L)| <= Pow2(L)
    {
      FixedLiteralSymbols(L);
      assert Pow2(7) == 128 && Pow2(8) == 256 && Pow2(9) == 512;
    }
  }

  lemma {:induction false} FixedDistanceShape()
    ensures LengthsInRange(FixedDistanceLengths) && Fits(FixedDistanceLengths)
    ensures MinLength(FixedDistanceLengths) == 5 == MaxLength(FixedDistanceLengths)
    ensures forall L :: 1 <= L <= MaxCodeLength ==> FirstCode(FixedDistanceLengths, L) == 0
    ensures forall L :: 1 <= L <= MaxCodeLength ==>
      SymbolsOf(FixedDistanceLengths, L) == if L == 5 then Range(0, 32) else []
  {
    var lens := FixedDistanceLengths;
    assert LengthsInRange(lens);
    LengthBounds(lens);
    assert lens[0] == 5;
    forall L | 1 <= L <= MaxCodeLength
      ensures SymbolsOf(lens, L) == if L == 5 then Range(0, 32) else []
    {
      SymbolsInConstant(lens, L, 0, 32, 5);
    }
    forall L | 1 <= L <= MaxCodeLength
      ensures FirstCode(lens, L) + |SymbolsOf(lens, L)| <= Pow2(L)
    {
      assert Pow2(5) == 32;
    }
  }

  /** The code of distance symbol s is s itself in five bits. */
  lemma {:induction false} FixedDistanceCode(s: nat)
    requires s < 32
    ensures CodeBits(FixedDistanceLengths, s) == MsbBits(s, 5)
  {
    var lens := FixedDistanceLengths;
    assert lens[s] == 5;
    SymbolsInConstant(lens, 5, 0, s, 5);
    FirstCodeOfDistance();
    assert CodeOf(lens, s) == s;
  }

  lemma {:induction false} FirstCodeOfDistance()
    ensures FirstCode(FixedDistanceLengths, 5) == 0
  {
    FixedDistanceShape();
  }

  /** The fixed distance code of s, followed by anything, decodes to s. */
  lemma {:induction false} FixedDistanceRoundTrip(s: nat, rest: seq<bool>)
    requires s < 32
    ensures Decode(Canonical(FixedDistanceLengths), MsbBits(s, 5) + rest) == Ok((s, rest))
  {
    FixedDistanceShape();
    FixedDistanceCode(s);
    DecodeCodeBits(FixedDistanceLengths, s, rest);
  }

  /** With the fixed distance code, a distance symbol is the next five
      bits read most significant first. */
  lemma {:induction false} FixedDistanceDecode(bits: seq<bool>)
    requires |bits| >= 5
    ensures Decode(Canonical(FixedDistanceLengths), bits) == Ok((MsbValue(bits[..5]), bits[5..]))
  {
    var s := MsbValue(bits[..5]);
    MsbBound(bits[..5]);
    assert Pow2(5) == 32;
    MsbBitsOfValue(bits[..5]);
    assert bits == MsbBits(s, 5) + bits[5..];
    FixedDistanceRoundTrip(s, bits[5..]);
  }

  // ---------------------------------------------------------------------
  // The tables built on first use

  /** The static tables of `t2_z__fixed_huffman_tables` and their `init`
      flag. */
  class FixedTables {
    var init: bool
    var literal: Table
    var distance: Table

    /** Once built, the tables are the fixed codes. */
    ghost predicate Valid()
      reads this
    {
      init ==> literal == HandWrittenLiteral && distance == Canonical(FixedDistanceLengths)
    }

    constructor ()
      ensures Valid() && !init
    {
      init := false;
      literal := Table(16, 0, seq(MaxCodeLength, _ => NoCodes));
      distance := literal;
    }

    /** The first call fills the code-length arrays in loops, builds both
        tables and sets `init`; later calls return the tables unchanged. */
    method Get() returns (lit: Table, dist: Table)
      requires Valid()
      modifies this
      ensures Valid() && init
      ensures lit == literal == HandWrittenLiteral && dist == distance == Canonical(FixedDistanceLengths)
      ensures old(init) ==> unchanged(this)
    {
      if init {
        return literal, distance;
      }
      var lens := new nat[288];
      var sym := 0;
      while sym <= 143
        invariant sym <= 144 && forall k :: 0 <= k < sym ==> lens[k] == FixedLiteralLength(k)
      {
        lens[sym] := 8;
        sym := sym + 1;
      }
      while sym <= 255
        invariant 144 <= sym <= 256 && forall k :: 0 <= k < sym ==> lens[k] == FixedLiteralLength(k)
      {
        lens[sym] := 9;
        sym := sym + 1;
      }
      while sym <= 279
        invariant 256 <= sym <= 280 && forall k :: 0 <= k < sym ==> lens[k] == FixedLiteralLength(k)
      {
        lens[sym] := 7;
        sym := sym + 1;
      }
      while sym <= 287
        invariant 280 <= sym <= 288 && forall k :: 0 <= k < sym ==> lens[k] == FixedLiteralLength(k)
      {
        lens[sym] := 8;
        sym := sym + 1;
      }
      assert lens[..] == FixedLiteralLengths;
      var l := BuildTable(lens[..]);
      HandWrittenIsCanonical();

      var dlens := new nat[32];
      sym := 0;
      while sym < 32
        invariant sym <= 32 && forall k :: 0 <= k < sym ==> dlens[k] == 5
      {
        dlens[sym] := 5;
        sym := sym + 1;
      }
      assert dlens[..] == FixedDistanceLengths;
      var d := BuildTable(dlens[..]);
      FixedDistanceShape();

      literal, distance := l.value, d.value;
      init := true;
      return literal, distance;
    }
  }
}
