/** The bit reader `t2_z__bitreader` (t2_inflate.c:46-83): the byte it is
    taking bits from and how many of its bits are left, over an input
    cursor.  Its state is summarised by Stream(), the bits still to come. */
module BitReading {
  import opened Common
  import opened Bits
  import opened Cursor

  /** The bits left in a partly used byte followed by whole bytes. */
  lemma {:induction false} StreamAvail(c: nat, b: nat, s: seq<byte>)
    requires b <= 8
    ensures Avail(LowBits(c, b) + BytesToBits(s)) == if b == 0 then 8 else b
    ensures |LowBits(c, b) + BytesToBits(s)| % 8 == b % 8
  {
    var m := |s|;
    if b == 0 {
      assert LowBits(c, b) + BytesToBits(s) == BytesToBits(s);
      DivModUnique(8 * m, 8, m, 0);
    } else {
      DivModUnique(8 * m, 8, m, 0);
      AvailOf(c, b, BytesToBits(s));
      if b < 8 {
        DivModUnique(b + 8 * m, 8, m, b);
      } else {
        DivModUnique(b + 8 * m, 8, m + 1, 0);
      }
    }
  }

  /** A stream of whole bytes leaves no bits in the current byte. */
  lemma {:induction false} AlignedStream(c: nat, b: nat, s: seq<byte>)
    requires b <= 7 && |LowBits(c, b) + BytesToBits(s)| % 8 == 0
    ensures b == 0
  {
    StreamAvail(c, b, s);
  }

  /** Whole bytes less four whole bytes are whole bytes. */
  lemma {:induction false} WholeBytesLess32(n: nat)
    requires n % 8 == 0 && n >= 32
    ensures (n - 32) % 8 == 0
  {
    DivModUnique(n - 32, 8, n / 8 - 4, 0);
  }

  lemma {:induction false} DivLe(x: nat, m: nat)
    requires m >= 1
    ensures x / m <= x
  {
    var q := x / m;
    assert x == m * q + x % m;
    MulAtLeast(m, q);
  }

  /** `byte >>= k` for the divisor m = 2^k. */
  function Shift(c: byte, m: nat): (r: byte)
    requires m >= 1
    ensures r == c / m
  {
    DivLe(c, m);
    c / m
  }

  lemma {:induction false} MulAtLeast(m: nat, q: nat)
    requires m >= 1
    ensures m * q >= q
  {
  }

  /** Moving a group of a read into the low end of the output. */
  lemma {:induction false} Accumulate(o: nat, p: nat, q: nat, v: nat, g: int, g': int, n: nat)
    requires p * q == n && g == v * q + g'
    ensures (o * p + v) * q + g' == o * n + g
  {
    assert (o * p + v) * q == o * (p * q) + v * q;
  }

  lemma {:induction false} MulNat(o: nat, p: nat)
    ensures o * p >= 0
  {
  }

  class BitReader {
    const buffer: Buffer
    /** The current byte, shifted right past the bits already taken. */
    var cur: byte
    /** How many bits of `cur` are still to be read. */
    var bitsLeft: nat

    /** At most 8 bits are left in the current byte. */
    ghost predicate Inner()
      reads this, buffer
    {
      buffer.Valid() && bitsLeft <= 8
    }

    /** Between reads fewer than 8 bits are left: a fresh byte is fetched
        only inside `Read`, which always takes at least one bit of it. */
    ghost predicate Valid()
      reads this, buffer
    {
      Inner() && bitsLeft <= 7
    }

    /** The bits the reader will deliver, in order. */
    ghost function Stream(): seq<bool>
      reads this, buffer, buffer.data
      requires Inner()
    {
      LowBits(cur, bitsLeft) + BytesToBits(buffer.data[buffer.position..])
    }

    /** A reader at the start of the buffer (t2_inflate.c:538). */
    constructor (buffer: Buffer)
      requires buffer.Valid()
      ensures this.buffer == buffer && Valid()
      ensures Stream() == BytesToBits(buffer.data[buffer.position..])
    {
      this.buffer := buffer;
      cur := 0;
      bitsLeft := 0;
      new;
      assert LowBits(0, 0) == [];
    }

    /** `t2_z__bitreader_flush`: drops the rest of the current byte; the
        input position does not move. */
    method Flush()
      requires Valid()
      modifies this
      ensures Valid() && buffer.position == old(buffer.position) && bitsLeft == 0
      ensures Stream() == old(Stream())[|old(Stream())| % 8..]
    {
      StreamAvail(cur, bitsLeft, buffer.data[buffer.position..]);
      assert old(Stream())[|old(Stream())| % 8..] == BytesToBits(buffer.data[buffer.position..]);
      bitsLeft := 0;
      assert LowBits(cur, 0) == [];
    }

    /** The fetch at the top of the read loop (t2_inflate.c:67-70): with no
        bits left, the next input byte becomes the current byte. */
    method Fetch() returns (ok: bool)
      requires Inner() && bitsLeft == 0
      modifies this, buffer
      ensures Inner() && Stream() == old(Stream())
      ensures ok <==> |old(Stream())| > 0
      ensures ok ==> bitsLeft == 8
      ensures !ok ==> bitsLeft == 0
    {
      ghost var p := buffer.position;
      assert LowBits(cur, 0) == [];
      var b := buffer.ReadByte();
      if b.Err? {
        return false;
      }
      cur := b.value;
      bitsLeft := 8;
      assert buffer.data[p..][1..] == buffer.data[buffer.position..];
      ok := true;
    }

    /** One turn of the read loop (t2_inflate.c:72-79): takes the low
        k = min(nbits, bitsLeft) bits of the current byte. */
    method Turn(nbits: nat) returns (v: nat, k: nat)
      requires Inner() && 1 <= bitsLeft && 1 <= nbits
      modifies this
      ensures Inner() && k == (if nbits < old(bitsLeft) then nbits else old(bitsLeft))
      ensures bitsLeft == old(bitsLeft) - k && v < Pow2(k)
      ensures Stream() == old(Stream())[k..]
      ensures nbits <= |old(Stream())| ==>
        ReadGroups(old(Stream()), old(bitsLeft), nbits)
        == v * Pow2(nbits - k) + ReadGroups(Stream(), if bitsLeft == 0 then 8 else bitsLeft, nbits - k)
    {
      ghost var rest := BytesToBits(buffer.data[buffer.position..]);
      k := if nbits < bitsLeft then nbits else bitsLeft;
      var pk := Pow2(k);
      ReadInside(cur, bitsLeft, rest, k);
      if nbits < bitsLeft {
        assert Pow2(0) == 1;
      } else if nbits == bitsLeft {
        assert Pow2(0) == 1;
      } else if nbits <= bitsLeft + |rest| {
        ReadAcross(cur, bitsLeft, rest, nbits);
      }
      v := cur % pk;
      bitsLeft := bitsLeft - k;
      cur := Shift(cur, pk);
    }

    /** The value a read will have once the nbits bits still wanted are
        taken, given the groups accumulated so far. */
    ghost function Pending(output: nat, nbits: nat): int
      reads this, buffer, buffer.data
      requires Valid() && nbits <= |Stream()|
    {
      output * Pow2(nbits) + ReadGroups(Stream(), if bitsLeft == 0 then 8 else bitsLeft, nbits)
    }

    /** One iteration of the read loop (t2_inflate.c:66-80): fetches a byte
        when none is left and moves the next group into the output. */
    method Step(output: nat, nbits: nat) returns (ok: bool, output': nat, nbits': nat)
      requires Valid() && 1 <= nbits
      modifies this, buffer
      ensures Valid() && nbits' < nbits
      ensures ok <==> |old(Stream())| > 0
      ensures ok ==> nbits - nbits' <= |old(Stream())| && Stream() == old(Stream())[nbits - nbits'..]
      ensures ok && nbits <= |old(Stream())| ==> Pending(output', nbits') == old(Pending(output, nbits))
    {
      ghost var g0 := if nbits <= |Stream()| then ReadGroups(Stream(), if bitsLeft == 0 then 8 else bitsLeft, nbits) else 0;
      ghost var s := Stream();
      ghost var pending := if nbits <= |s| then Pending(output, nbits) else 0;
      assert nbits <= |s| ==> pending == output * Pow2(nbits) + g0;
      if bitsLeft == 0 {
        ok := Fetch();
        if !ok {
          return false, output, 0;
        }
      }
      ok := true;
      ghost var g := if nbits <= |s| then ReadGroups(Stream(), bitsLeft, nbits) else 0;
      var v, k := Turn(nbits);
      ghost var g' := if nbits <= |s| then ReadGroups(Stream(), if bitsLeft == 0 then 8 else bitsLeft, nbits - k) else 0;
      var P, Q := Pow2(k), Pow2(nbits - k);
      assert g == g0;
      Pow2Add(k, nbits - k);
      assert P * Q == Pow2(nbits);
      MulNat(output, P);
      output' := output * P + v;
      nbits' := nbits - k;
      if nbits <= |s| {
        Accumulate(output, P, Q, v, g0, g', Pow2(nbits));
        assert Pending(output', nbits') == output' * Q + g';
      }
    }

    /** `t2_z__bitreader_read`: consumes exactly n bits of the stream and
        returns the value ReadBits gives them; fails on more than 64 bits
        or when the input runs out. */
    method Read(n: nat) returns (r: Result<nat>)
      requires Valid()
      modifies this, buffer
      ensures Valid()
      ensures ReadBits(old(Stream()), n).Ok? <==> r.Ok?
      ensures r.Ok? ==> r.value == ReadBits(old(Stream()), n).value.0 && Stream() == old(Stream())[n..]
      ensures r.Err? ==> r.error == ReadBits(old(Stream()), n).error
    {
      if n > 64 {
        return Err(TooManyBits);
      }
      ghost var s0 := Stream();
      StreamAvail(cur, bitsLeft, buffer.data[buffer.position..]);
      var output: nat := 0;
      var nbits: nat := n;
      while nbits > 0
        invariant Valid() && nbits <= n && n - nbits <= |s0|
        invariant Stream() == s0[n - nbits..]
        invariant n <= |s0| ==> Pending(output, nbits) == ReadValue(s0, n)
        decreases nbits
      {
        var ok;
        ok, output, nbits := Step(output, nbits);
        if !ok {
          return Err(BufferExhausted);
        }
      }
      return Ok(output);
    }
  }
}
