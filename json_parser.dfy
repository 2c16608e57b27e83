/** The parser object `t2_json_t` (t2_json.h:41-51) and the scanner
    operations that move its cursor (t2_json.c:45-58, 101-158, 168-176).
    Each method is proved against the specification functions of
    JsonScan. */
module JsonParser {
  import opened Common
  import opened JsonScan
  import Cesu
  import Hex

  /** `T2_JSON__T_STACK_LENGTH`: the number of restore points. */
  const StackLength: nat := 10

  /** A restore point: `Unset` is the NULL scanner `t2_json_init`'s memset
      leaves in the stack. */
  datatype Slot = Unset | At(cursor: nat)

  /** How a turn of `get_string`'s loop ends: the loop goes on, the closing
      quote ended it, or the C code would have undefined behaviour. */
  datatype Status = Going | Closed | Failed(error: Error)

  /** One turn of `get_string`'s loop with the cursor at `pos`, for each
      character that can follow it. */
  lemma {:induction false} StepEnd(s: seq<char>, pos: nat, delim: char, room: nat, w: seq<char>)
    requires delim != NUL && pos + 1 == |s| && |w| < room
    ensures UnescapeFrom(s[pos + 1..], delim, room, w, pos) == Err(ReadPastEnd)
  {
  }

  lemma {:induction false} StepClose(s: seq<char>, pos: nat, delim: char, room: nat, w: seq<char>)
    requires delim != NUL && pos + 1 < |s| && s[pos + 1] == delim && |w| < room
    ensures UnescapeFrom(s[pos + 1..], delim, room, w, pos) == Ok(Decoded(w, pos + 2, true))
  {
  }

  lemma {:induction false} StepPlain(s: seq<char>, pos: nat, delim: char, room: nat, w: seq<char>)
    requires delim != NUL && pos + 1 < |s| && s[pos + 1] != delim && s[pos + 1] != '\\' && |w| < room
    ensures UnescapeFrom(s[pos + 1..], delim, room, w, pos) == UnescapeFrom(s[pos + 2..], delim, room, w + [s[pos + 1]], pos + 1)
  {
    assert s[pos + 1..][1..] == s[pos + 2..];
  }

  lemma {:induction false} StepEscape(s: seq<char>, pos: nat, delim: char, room: nat, w: seq<char>)
    requires delim != NUL && pos + 1 < |s| && s[pos + 1] != delim && s[pos + 1] == '\\' && |w| < room
    ensures UnescapeFrom(s[pos + 1..], delim, room, w, pos) == EscapeFrom(s[pos + 1..], delim, room, w, pos)
  {
  }

  lemma {:induction false} StepLetter(s: seq<char>, pos: nat, delim: char, room: nat, w: seq<char>)
    requires delim != NUL && pos + 2 < |s| && s[pos + 2] != 'u' && |w| < room
    ensures EscapeFrom(s[pos + 1..], delim, room, w, pos)
         == if IsSimpleEscape(s[pos + 2]) then UnescapeFrom(s[pos + 3..], delim, room, w + [Unescaped(s[pos + 2])], pos + 2)
            else UnescapeFrom(s[pos + 3..], delim, room, w, pos + 2)
  {
    var q := s[pos + 1..];
    assert q[1] == s[pos + 2];
    assert q[2..] == s[pos + 3..];
  }

  lemma {:induction false} StepShortHex(s: seq<char>, pos: nat, delim: char, room: nat, w: seq<char>)
    requires delim != NUL && pos + 2 < |s| && s[pos + 2] == 'u' && |w| < room && pos + 7 > |s|
    ensures EscapeFrom(s[pos + 1..], delim, room, w, pos) == Err(InvalidHexDigit)
  {
    assert s[pos + 1..][1] == s[pos + 2];
  }

  lemma {:induction false} StepBadHex(s: seq<char>, pos: nat, delim: char, room: nat, w: seq<char>)
    requires delim != NUL && pos + 7 <= |s| && s[pos + 2] == 'u' && |w| < room
    requires Hex.Hex4(s[pos + 3..pos + 7]).None?
    ensures EscapeFrom(s[pos + 1..], delim, room, w, pos) == Err(InvalidHexDigit)
  {
    var q := s[pos + 1..];
    assert q[1] == s[pos + 2];
    assert q[2..6] == s[pos + 3..pos + 7];
  }

  lemma {:induction false} StepHexOverflow(s: seq<char>, pos: nat, delim: char, room: nat, w: seq<char>, cp: nat)
    requires delim != NUL && pos + 7 <= |s| && s[pos + 2] == 'u' && |w| < room
    requires Hex.Hex4(s[pos + 3..pos + 7]) == Some(cp) && |w| + |Cesu.Encode(cp)| > room
    ensures EscapeFrom(s[pos + 1..], delim, room, w, pos) == Err(BufferOverflow)
  {
    var q := s[pos + 1..];
    assert q[1] == s[pos + 2];
    assert q[2..6] == s[pos + 3..pos + 7];
  }

  lemma {:induction false} StepHex(s: seq<char>, pos: nat, delim: char, room: nat, w: seq<char>, cp: nat)
    requires delim != NUL && pos + 7 <= |s| && s[pos + 2] == 'u' && |w| < room
    requires Hex.Hex4(s[pos + 3..pos + 7]) == Some(cp) && |w| + |Cesu.Encode(cp)| <= room
    ensures EscapeFrom(s[pos + 1..], delim, room, w, pos)
         == UnescapeFrom(s[pos + 7..], delim, room, w + Cesu.AsChars(Cesu.Encode(cp)), pos + 6)
  {
    var q := s[pos + 1..];
    assert q[1] == s[pos + 2];
    assert q[2..6] == s[pos + 3..pos + 7];
    assert q[6..] == s[pos + 7..];
  }

  /** The C struct: the scanner's cursor `s.S` as an index into `text`, the
      stack of restore points `r.s` with its height `r.n`, and the sticky
      error flag `e`. */
  class Parser {
    const text: seq<char>
    var pos: nat
    const slots: array<Slot>
    var depth: nat
    var failed: bool
    /** The saved cursors, oldest first. */
    ghost var saved: seq<nat>

    ghost predicate Valid()
      reads this, slots
    {
      CString(text) && pos < |text|
      && slots.Length == StackLength && depth <= StackLength && |saved| == depth
      && forall k :: 0 <= k < depth ==> slots[k] == At(saved[k]) && saved[k] < |text|
    }

    /** `t2_json_init` (t2_json.c:170): the cursor at the start of the
        text, nothing saved, no error. */
    constructor(s: seq<char>)
      requires CString(s)
      ensures Valid() && fresh(slots)
      ensures text == s && pos == 0 && depth == 0 && !failed && saved == []
      ensures forall k :: 0 <= k < StackLength ==> slots[k] == Unset
    {
      text := s;
      pos := 0;
      slots := new Slot[StackLength](_ => Unset);
      depth := 0;
      failed := false;
      saved := [];
    }

    /** `sync` (t2_json.c:45): skip spaces and tabs. */
    method Sync()
      requires Valid()
      modifies this`pos
      ensures Valid() && pos == SkipBlanks(text, old(pos))
    {
      while IsBlank(text[pos])
        invariant Valid() && old(pos) <= pos
        invariant SkipBlanks(text, pos) == SkipBlanks(text, old(pos))
        decreases |text| - pos
      {
        pos := pos + 1;
      }
    }

    /** `breq` (t2_json.c:47-58): after the blanks, step over `c` if it is
        there.  `c` is one of the punctuation characters, never the NUL. */
    method Breq(c: char) returns (b: bool)
      requires Valid() && c != NUL
      modifies this`pos
      ensures Valid()
      ensures b <==> text[SkipBlanks(text, old(pos))] == c
      ensures pos == SkipBlanks(text, old(pos)) + (if b then 1 else 0)
    {
      Sync();
      if text[pos] == c {
        pos := pos + 1;
        b := true;
      } else {
        b := false;
      }
    }

    /** `jreq` (t2_json.c:168): `breq`, and a miss sets the error flag,
        which nothing clears. */
    method Jreq(c: char)
      requires Valid() && c != NUL
      modifies this`pos, this`failed
      ensures Valid()
      ensures failed <==> old(failed) || text[SkipBlanks(text, old(pos))] != c
      ensures pos == SkipBlanks(text, old(pos)) + (if text[SkipBlanks(text, old(pos))] == c then 1 else 0)
    {
      var b := Breq(c);
      if !b {
        failed := true;
      }
    }

    /** `tok` (t2_json.c:61-99) with keywords recognised by their prefix:
        classify the first non-blank, moving only past the blanks. */
    method Tok() returns (t: JsonType)
      requires Valid()
      modifies this`pos
      ensures Valid() && pos == SkipBlanks(text, old(pos))
      ensures t == ClassifyKeywords(text, pos)
    {
      Sync();
      t := ClassifyKeywords(text, pos);
    }

    /** `t2_json_get_type` (t2_json.c:172): ERROR once the flag is set,
        without moving; otherwise `tok`. */
    method GetType() returns (t: JsonType)
      requires Valid()
      modifies this`pos
      ensures Valid()
      ensures old(failed) ==> t == Error && pos == old(pos)
      ensures !old(failed) ==> pos == SkipBlanks(text, old(pos)) && t == ClassifyKeywords(text, pos)
    {
      if failed {
        t := Error;
      } else {
        t := Tok();
      }
    }

    /** `t2_json_has_error` (t2_json.c:173). */
    method HasError() returns (e: bool)
      requires Valid()
      modifies this`pos
      ensures Valid()
      ensures e <==> old(failed) || ClassifyKeywords(text, SkipBlanks(text, old(pos))) == Error
    {
      var t := GetType();
      e := t == Error;
    }

    /** `chomp_string` (t2_json.c:101-117): skip the string at the cursor. */
    method ChompString()
      requires Valid()
      modifies this`pos
      ensures Valid() && pos == Chomp(text, old(pos))
    {
      ghost var target := Chomp(text, pos);
      Sync();
      var delim := text[pos];
      if delim == NUL {
        return;
      }
      while text[pos] != NUL
        invariant Valid() && ChompFrom(text, pos, delim) == target
        decreases |text| - pos
      {
        pos := pos + 1;
        if text[pos] == delim {
          pos := pos + 1;
          break;
        }
        if text[pos] == '\\' {
          pos := pos + 1;
        }
      }
    }

    /** One turn of `get_string`'s loop (t2_json.c:127-154), with `i`
        characters written: read the character after the cursor and what
        it needs, write what it stands for and step over it.  The turn's
        effect is one step of UnescapeFrom; on an error the cursor stays. */
    method Turn(v: array<char>, delim: char, i: nat) returns (j: nat, st: Status)
      requires Valid() && delim != NUL && i < v.Length - 1
      modifies this`pos, v
      ensures Valid()
      ensures i <= j <= v.Length - 1 && v[j..] == old(v[j..])
      ensures st == Going ==>
        old(pos) < pos && j <= v.Length - 1
        && UnescapeFrom(text[pos + 1..], delim, v.Length - 1, v[..j], pos)
           == UnescapeFrom(text[old(pos) + 1..], delim, v.Length - 1, old(v[..i]), old(pos))
      ensures st == Closed ==>
        j == i && v[..j] == old(v[..i]) && pos < |text|
        && UnescapeFrom(text[old(pos) + 1..], delim, v.Length - 1, old(v[..i]), old(pos)) == Ok(Decoded(v[..j], pos, true))
      ensures st.Failed? ==>
        pos == old(pos)
        && UnescapeFrom(text[old(pos) + 1..], delim, v.Length - 1, old(v[..i]), old(pos)) == Err(st.error)
    {
      var room := v.Length - 1;
      ghost var w := v[..i];
      if pos + 1 == |text| {
        StepEnd(text, pos, delim, room, w);
        return i, Failed(ReadPastEnd);
      }
      var c := text[pos + 1];
      if c == delim {
        StepClose(text, pos, delim, room, w);
        pos := pos + 2;
        return i, Closed;
      } else if c == '\\' {
        StepEscape(text, pos, delim, room, w);
        j, st := TurnEscape(v, delim, i);
      } else {
        TurnPlain(v, delim, i);
        j, st := i + 1, Going;
      }
    }

    /** The plain case of Turn (t2_json.c:151-153): copy the character
        after the cursor and step onto it. */
    method TurnPlain(v: array<char>, delim: char, i: nat)
      requires Valid() && delim != NUL && i < v.Length - 1
      requires pos + 1 < |text| && text[pos + 1] != delim && text[pos + 1] != '\\'
      modifies this`pos, v
      ensures Valid() && pos == old(pos) + 1
      ensures v[..i + 1] == old(v[..i]) + [text[pos]]
      ensures v[i + 1..] == old(v[i + 1..])
      ensures UnescapeFrom(text[pos + 1..], delim, v.Length - 1, v[..i + 1], pos)
           == UnescapeFrom(text[old(pos) + 1..], delim, v.Length - 1, old(v[..i]), old(pos))
    {
      ghost var w := v[..i];
      StepPlain(text, pos, delim, v.Length - 1, w);
      v[i] := text[pos + 1];
      assert v[..i + 1] == w + [text[pos + 1]];
      pos := pos + 1;
    }

    /** The escape case of Turn (t2_json.c:132-150): the cursor is on the
        character before a backslash. */
    method TurnEscape(v: array<char>, delim: char, i: nat) returns (j: nat, st: Status)
      requires Valid() && delim != NUL && i < v.Length - 1
      requires pos + 1 < |text| && text[pos + 1] == '\\'
      modifies this`pos, v
      ensures Valid()
      ensures i <= j <= v.Length - 1 && v[j..] == old(v[j..])
      ensures st == Going ==>
        old(pos) < pos && j <= v.Length - 1
        && UnescapeFrom(text[pos + 1..], delim, v.Length - 1, v[..j], pos)
           == EscapeFrom(text[old(pos) + 1..], delim, v.Length - 1, old(v[..i]), old(pos))
      ensures st != Closed
      ensures st.Failed? ==>
        pos == old(pos)
        && EscapeFrom(text[old(pos) + 1..], delim, v.Length - 1, old(v[..i]), old(pos)) == Err(st.error)
    {
      var room := v.Length - 1;
      if pos + 2 == |text| {
        return i, Failed(ReadPastEnd);
      }
      if text[pos + 2] != 'u' {
        StepLetter(text, pos, delim, room, v[..i]);
        j := TurnLetter(v, i);
        return j, Going;
      }
      j, st := TurnHex(v, delim, i);
    }

    /** The `\u` escape, from the cursor's place before the backslash. */
    method TurnHex(v: array<char>, delim: char, i: nat) returns (j: nat, st: Status)
      requires Valid() && delim != NUL && i < v.Length - 1
      requires pos + 2 < |text| && text[pos + 2] == 'u'
      modifies this`pos, v
      ensures Valid()
      ensures i <= j <= v.Length - 1 && v[j..] == old(v[j..])
      ensures st == Going ==>
        old(pos) < pos && j <= v.Length - 1
        && UnescapeFrom(text[pos + 1..], delim, v.Length - 1, v[..j], pos)
           == EscapeFrom(text[old(pos) + 1..], delim, v.Length - 1, old(v[..i]), old(pos))
      ensures st != Closed
      ensures st.Failed? ==>
        pos == old(pos)
        && EscapeFrom(text[old(pos) + 1..], delim, v.Length - 1, old(v[..i]), old(pos)) == Err(st.error)
    {
      var room := v.Length - 1;
      if pos + 7 > |text| {
        StepShortHex(text, pos, delim, room, v[..i]);
        return i, Failed(InvalidHexDigit);
      }
      var p := pos;
      ghost var w := v[..i];
      var cp: Option<nat>;
      j, st, cp := TurnUnicode(v, i);
      if st == Going {
        StepHex(text, p, delim, room, w, cp.value);
        assert pos + 1 == p + 7 && v[..j] == w + Cesu.AsChars(Cesu.Encode(cp.value));
      } else if cp.None? {
        StepBadHex(text, p, delim, room, w);
      } else {
        StepHexOverflow(text, p, delim, room, w, cp.value);
      }
    }

    /** The escape letter case of TurnEscape (t2_json.c:134-141): write
        what a simple escape stands for, nothing for any other letter, and
        step onto the letter. */
    method TurnLetter(v: array<char>, i: nat) returns (j: nat)
      requires Valid() && i < v.Length && pos + 2 < |text|
      modifies this`pos, v
      ensures Valid() && pos == old(pos) + 2
      ensures IsSimpleEscape(text[pos]) ==> j == i + 1 && v[..j] == old(v[..i]) + [Unescaped(text[pos])]
      ensures !IsSimpleEscape(text[pos]) ==> j == i && v[..j] == old(v[..i])
      ensures v[j..] == old(v[j..])
    {
      var e := text[pos + 2];
      j := i;
      if IsSimpleEscape(e) {
        ghost var w := v[..i];
        v[i] := Unescaped(e);
        assert v[..i + 1] == w + [Unescaped(e)];
        j := i + 1;
      }
      pos := pos + 2;
    }

    /** The rest of TurnHex (t2_json.c:142-147): read the four
        digits after the cursor's `\u` with `dhex` (`cp`, None when one is
        not a hex digit), write the code point with `cesu8_write` and step
        onto the last digit. */
    method TurnUnicode(v: array<char>, i: nat) returns (j: nat, st: Status, cp: Option<nat>)
      requires Valid() && i < v.Length - 1 && pos + 7 <= |text|
      modifies this`pos, v
      ensures Valid()
      ensures cp == Hex.Hex4(text[old(pos) + 3..old(pos) + 7])
      ensures st != Closed
      ensures i <= j <= v.Length - 1 && v[j..] == old(v[j..])
      ensures cp.None? ==> st == Failed(InvalidHexDigit) && pos == old(pos)
      ensures cp.Some? && i + |Cesu.Encode(cp.value)| > v.Length - 1 ==> st == Failed(BufferOverflow) && pos == old(pos)
      ensures cp.Some? && i + |Cesu.Encode(cp.value)| <= v.Length - 1 ==>
        st == Going && pos == old(pos) + 6 && j == i + |Cesu.Encode(cp.value)|
        && v[..j] == old(v[..i]) + Cesu.AsChars(Cesu.Encode(cp.value))
    {
      cp := Hex.Hex4(text[pos + 3..pos + 7]);
      if cp.None? {
        return i, Failed(InvalidHexDigit), cp;
      }
      if i + |Cesu.Encode(cp.value)| > v.Length - 1 {
        return i, Failed(BufferOverflow), cp;
      }
      var n := Cesu.Write(v, i, cp.value);
      pos := pos + 6;
      j, st := i + n, Going;
    }

    /** `get_string` (t2_json.c:119-158): decode the string at the cursor
        into `v`, which has room for `v.Length - 1` characters and the NUL.
        On success the result is the number of characters before the NUL;
        on an error (undefined behaviour in C) the cursor is left where it
        was. */
    method GetString(v: array<char>) returns (r: Result<nat>)
      requires Valid() && v.Length >= 1
      modifies this`pos, v
      ensures Valid()
      ensures match DecodeString(text, old(pos), v.Length)
        case Ok(d) => r == Ok(|d.chars|) && pos == d.cursor && |d.chars| < v.Length
                      && v[..|d.chars|] == d.chars && v[|d.chars|] == NUL
                      && v[|d.chars| + 1..] == old(v[|d.chars| + 1..])
        case Err(e) => r == Err(e) && pos == old(pos)
    {
      ghost var result := DecodeString(text, pos, v.Length);
      var p0 := pos;
      Sync();
      var delim := text[pos];
      var room := v.Length - 1;
      if delim == NUL {
        if room == 0 {
          v[0] := NUL;
          assert v[..0] == [];
          return Ok(0);
        }
        pos := p0;
        return Err(ReadPastEnd);
      }
      var i: nat := 0;
      while i < room
        invariant Valid() && room == v.Length - 1 && i <= room
        invariant UnescapeFrom(text[pos + 1..], delim, room, v[..i], pos) == result
        invariant v[i..] == old(v[i..])
        decreases |text| - pos
      {
        var st;
        i, st := Turn(v, delim, i);
        if st.Failed? {
          pos := p0;
          return Err(st.error);
        } else if st == Closed {
          break;
        }
      }
      var chars := v[..i];
      v[i] := NUL;
      assert v[..i] == chars;
      r := Ok(i);
    }

    /** `t2_json_save` (t2_json.c:175): push the cursor and return it.  The
        C code writes past the stack when all ten slots are in use; that is
        StackOverflow here. */
    method Save() returns (r: Result<nat>)
      requires Valid()
      modifies this`depth, this`saved, slots
      ensures Valid() && pos == old(pos)
      ensures old(depth) < StackLength ==>
        r == Ok(pos) && saved == old(saved) + [pos] && depth == old(depth) + 1
        && slots[..] == old(slots[..])[old(depth) := At(pos)]
      ensures old(depth) == StackLength ==>
        r == Err(StackOverflow) && saved == old(saved) && depth == old(depth) && slots[..] == old(slots[..])
    {
      if depth == StackLength {
        return Err(StackOverflow);
      }
      slots[depth] := At(pos);
      saved := saved + [pos];
      depth := depth + 1;
      r := Ok(pos);
    }

    /** `t2_json_restore` (t2_json.c:176) returning what its declaration
        promises (t2_json.h:63-64), the cursor before the call: pop the
        latest restore point and move the cursor back to it.  A restore
        with nothing saved reads below the stack in C; that is
        StackUnderflow here. */
    method Restore() returns (r: Result<nat>)
      requires Valid()
      modifies this`pos, this`depth, this`saved
      ensures Valid()
      ensures old(depth) > 0 ==>
        r == Ok(old(pos)) && old(saved) == saved + [pos] && depth == old(depth) - 1
      ensures old(depth) == 0 ==>
        r == Err(StackUnderflow) && pos == old(pos) && saved == old(saved) && depth == old(depth)
    {
      if depth == 0 {
        return Err(StackUnderflow);
      }
      r := Ok(pos);
      depth := depth - 1;
      pos := slots[depth].cursor;
      saved := saved[..depth];
    }
  }
}
