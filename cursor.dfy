/** The byte cursor `t2_z_buffer`: an array of bytes with a position that
    reads and writes advance (t2_inflate.c:17-41, t2_inflate.h:12-48). */
module Cursor {
  import opened Common

  /** The output of a back-reference, as section 3.2.3 of RFC 1951 defines
      it: `length` bytes appended one at a time, each a copy of the byte
      `distance` places before it, so that a copy may overlap the bytes it
      produces. */
  function Repeat(out: seq<byte>, distance: nat, length: nat): (r: seq<byte>)
    requires 1 <= distance <= |out|
    ensures |r| == |out| + length && r[..|out|] == out
  {
    if length == 0 then out
    else
      var p := Repeat(out, distance, length - 1);
      p + [p[|p| - distance]]
  }

  /** Every byte a back-reference appends is the byte `distance` places
      before it. */
  lemma {:induction false} RepeatCopies(out: seq<byte>, distance: nat, length: nat)
    requires 1 <= distance <= |out|
    ensures forall i :: |out| <= i < |out| + length ==>
      Repeat(out, distance, length)[i] == Repeat(out, distance, length)[i - distance]
  {
    if length > 0 {
      RepeatCopies(out, distance, length - 1);
      var p := Repeat(out, distance, length - 1);
      var r := Repeat(out, distance, length);
      assert r == p + [p[|p| - distance]];
      forall i | |out| <= i < |r|
        ensures r[i] == r[i - distance]
      {
        if i < |p| {
          assert r[i] == p[i] && r[i - distance] == p[i - distance];
        } else {
          assert r[i] == p[|p| - distance] && r[i - distance] == p[i - distance];
        }
      }
    }
  }

  /** The appended bytes are the only ones with that property: Repeat is
      the one extension of `out` in which every new byte repeats the byte
      `distance` before it. */
  lemma {:induction false} RepeatUnique(out: seq<byte>, distance: nat, r: seq<byte>)
    requires 1 <= distance <= |out| <= |r| && r[..|out|] == out
    requires forall i :: |out| <= i < |r| ==> r[i] == r[i - distance]
    ensures r == Repeat(out, distance, |r| - |out|)
  {
    if |r| > |out| {
      var p := r[..|r| - 1];
      assert p[..|out|] == out;
      RepeatUnique(out, distance, p);
      assert r == p + [p[|p| - distance]];
    }
  }

  /** A back-reference that does not overlap the bytes it produces is a
      plain copy of `length` earlier bytes, which is what `memmove` does. */
  lemma {:induction false} RepeatNoOverlap(out: seq<byte>, distance: nat, length: nat)
    requires 1 <= distance <= |out| && length <= distance
    ensures Repeat(out, distance, length) == out + out[|out| - distance..|out| - distance + length]
  {
    if length > 0 {
      RepeatNoOverlap(out, distance, length - 1);
    }
  }

  /** A run of one byte: a back-reference at distance 1 repeats the last
      byte of the output. */
  lemma {:induction false} RepeatRun(out: seq<byte>, length: nat)
    requires |out| >= 1
    ensures forall i :: |out| <= i < |out| + length ==> Repeat(out, 1, length)[i] == out[|out| - 1]
  {
    var r := Repeat(out, 1, length);
    RepeatCopies(out, 1, length);
    assert forall j :: |out| - 1 < j < |r| ==> r[j] == r[j - 1];
    forall i | |out| <= i < |out| + length
      ensures r[i] == out[|out| - 1]
    {
      RunFrom(r, |out| - 1, i);
    }
  }

  lemma {:induction false} RunFrom(r: seq<byte>, k: nat, i: nat)
    requires k <= i < |r|
    requires forall j :: k < j < |r| ==> r[j] == r[j - 1]
    ensures r[i] == r[k]
    decreases i
  {
    if i > k {
      RunFrom(r, k, i - 1);
    }
  }

  class Buffer {
    const data: array<byte>
    var position: nat

    ghost predicate Valid()
      reads this
    {
      position <= data.Length
    }

    constructor (data: array<byte>, position: nat)
      requires position <= data.Length
      ensures this.data == data && this.position == position && Valid()
    {
      this.data := data;
      this.position := position;
    }

    /** `t2_z__buffer_read_byte`: the byte at the position, which advances
        by one; fails at the end of the buffer. */
    method ReadByte() returns (r: Result<byte>)
      requires Valid()
      modifies this
      ensures Valid()
      ensures r.Ok? <==> old(position) < data.Length
      ensures r.Ok? ==> r.value == data[old(position)] && position == old(position) + 1
      ensures r.Err? ==> r.error == BufferExhausted && position == old(position)
    {
      if position >= data.Length {
        return Err(BufferExhausted);
      }
      r := Ok(data[position]);
      position := position + 1;
    }

    /** `t2_z__buffer_write_byte`: stores b at the position, which advances
        by one; no other byte changes.  Fails when the buffer is full. */
    method WriteByte(b: byte) returns (r: Result<()>)
      requires Valid()
      modifies this, data
      ensures Valid()
      ensures r.Ok? <==> old(position) < data.Length
      ensures r.Ok? ==> data[..] == old(data[..])[old(position) := b] && position == old(position) + 1
      ensures r.Err? ==> r.error == BufferOverflow && unchanged(this, data)
    {
      if position >= data.Length {
        return Err(BufferOverflow);
      }
      data[position] := b;
      position := position + 1;
      r := Ok(());
    }

    /** `t2_z__buffer_copy` with offset 0 between two buffers (the stored
        block copy): `length` bytes of src at its position go to this
        buffer at its position, and both positions advance by `length`. */
    method CopyFrom(src: Buffer, length: nat) returns (r: Result<()>)
      requires Valid() && src.Valid() && src != this && src.data != data
      modifies this, data, src
      ensures Valid() && src.Valid()
      ensures r.Ok? <==> old(src.position) + length <= src.data.Length && old(position) + length <= data.Length
      ensures r.Ok? ==>
        && data[..] == old(data[..position]) + src.data[old(src.position)..old(src.position) + length]
                       + old(data[position + length..])
        && position == old(position) + length && src.position == old(src.position) + length
      ensures r.Err? ==>
        && r.error == (if old(src.position) + length > src.data.Length then BufferExhausted else BufferOverflow)
        && unchanged(this, data, src)
    {
      if src.position + length > src.data.Length {
        return Err(BufferExhausted);
      }
      if position + length > data.Length {
        return Err(BufferOverflow);
      }
      ghost var before := data[..];
      var p, q := position, src.position;
      var i := 0;
      while i < length
        invariant 0 <= i <= length && position == p && src.position == q
        invariant forall j :: 0 <= j < data.Length ==>
          data[j] == if p <= j < p + i then src.data[q + j - p] else before[j]
      {
        data[p + i] := src.data[q + i];
        i := i + 1;
      }
      assert data[..] == before[..p] + src.data[q..q + length] + before[p + length..];
      position := position + length;
      src.position := src.position + length;
      r := Ok(());
    }

    /** A back-reference (`t2_z__buffer_copy` of the output onto itself at
        offset -distance): appends Repeat of the bytes written so far, one
        byte at a time, and advances the position once by `length`.  Fails
        when the distance reaches before the start of the buffer or the
        copy would pass its end. */
    method CopyBack(distance: nat, length: nat) returns (r: Result<()>)
      requires Valid()
      modifies this, data
      ensures Valid()
      ensures r.Ok? <==> 1 <= distance <= old(position) && old(position) + length <= data.Length
      ensures r.Ok? ==>
        && position == old(position) + length
        && data[..position] == Repeat(old(data[..position]), distance, length)
        && data[position..] == old(data[..])[position..]
      ensures r.Err? ==>
        && r.error == (if distance < 1 || distance > old(position) then InvalidDistance else BufferOverflow)
        && unchanged(this, data)
    {
      if distance < 1 || distance > position {
        return Err(InvalidDistance);
      }
      if position + length > data.Length {
        return Err(BufferOverflow);
      }
      AppendRepeat(distance, length);
      r := Ok(());
    }

    /** The copy loop of a back-reference: `length` bytes, each the byte
        `distance` before the position, written one at a time. */
    method AppendRepeat(distance: nat, length: nat)
      requires Valid() && 1 <= distance <= position && position + length <= data.Length
      modifies this, data
      ensures Valid() && position == old(position) + length
      ensures data[..position] == Repeat(old(data[..position]), distance, length)
      ensures data[position..] == old(data[..])[position..]
    {
      ghost var start := position;
      ghost var before := data[..];
      ghost var done := before[..start];
      var i := 0;
      while i < length
        invariant 0 <= i <= length && position == start + i && |done| == start + i
        invariant done == Repeat(before[..start], distance, i)
        invariant forall j :: 0 <= j < start + i ==> data[j] == done[j]
        invariant forall j :: start + i <= j < data.Length ==> data[j] == before[j]
      {
        var b := data[position - distance];
        assert b == done[|done| - distance];
        data[position] := b;
        done := done + [b];
        position := position + 1;
        i := i + 1;
      }
      assert data[..position] == done;
      assert data[position..] == before[position..];
    }
  }
}
