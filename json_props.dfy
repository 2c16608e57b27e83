/** Properties of the JSON scanner's specification functions: escaping
    and unescaping are inverse, `\u` escapes produce CESU-8, unknown
    escapes vanish, and `chomp_string` ends where `get_string` does. */
module JsonEscaping {
  import opened Common
  import opened JsonScan
  import Cesu
  import Hex

  predicate IsQuote(d: char) {
    d == '"' || d == '\''
  }

  /** Decoding `q` after writing `w` with the cursor at `used` ends as
      decoding `q'` after writing `w'` with the cursor at `used'`. */
  predicate SameEnd(delim: char, room: nat, q: seq<char>, w: seq<char>, used: nat, q': seq<char>, w': seq<char>, used': nat)
    requires IsQuote(delim) && |w| <= room && |w'| <= room
  {
    UnescapeFrom(q, delim, room, w, used) == UnescapeFrom(q', delim, room, w', used')
  }

  /** One turn of the decoding loop over the escaped form of `x`. */
  lemma {:induction false} CharStep(delim: char, room: nat, w: seq<char>, used: nat, x: char, tail: seq<char>)
    requires IsQuote(delim) && |w| < room
    ensures SameEnd(delim, room, EscapeChar(x) + tail, w, used, tail, w + [x], used + |EscapeChar(x)|)
  {
    var q := EscapeChar(x) + tail;
    if NeedsEscape(x) {
      assert q[0] == '\\' && q[1] == EscapeLetter(x);
      assert q[2..] == tail;
    } else {
      assert q[0] == x;
      assert q[1..] == tail;
    }
  }

  /** Decoding steps over the escaped form of `t` and writes `t`, as long
      as `t` fits in the buffer. */
  lemma {:induction false} UnescapeEscaped(delim: char, room: nat, w: seq<char>, used: nat, t: seq<char>, post: seq<char>)
    requires IsQuote(delim) && |w| + |t| <= room
    ensures SameEnd(delim, room, EscapeThen(t, post), w, used, post, w + t, used + |EscapeThen(t, post)| - |post|)
    decreases |t|
  {
    if |t| == 0 {
      assert w + t == w;
    } else {
      UnescapeEscaped(delim, room, w + [t[0]], used + |EscapeChar(t[0])|, t[1..], post);
      EscapedStep(delim, room, w, used, t, post);
    }
  }

  /** The inductive step of UnescapeEscaped. */
  lemma {:induction false} EscapedStep(delim: char, room: nat, w: seq<char>, used: nat, t: seq<char>, post: seq<char>)
    requires IsQuote(delim) && |t| > 0 && |w| + |t| <= room
    requires SameEnd(delim, room, EscapeThen(t[1..], post), w + [t[0]], used + |EscapeChar(t[0])|,
                     post, (w + [t[0]]) + t[1..], used + |EscapeChar(t[0])| + |EscapeThen(t[1..], post)| - |post|)
    ensures SameEnd(delim, room, EscapeThen(t, post), w, used, post, w + t, used + |EscapeThen(t, post)| - |post|)
  {
    var tail := EscapeThen(t[1..], post);
    assert EscapeThen(t, post) == EscapeChar(t[0]) + tail;
    assert |EscapeThen(t, post)| == |EscapeChar(t[0])| + |tail|;
    CharStep(delim, room, w, used, t[0], tail);
    assert (w + [t[0]]) + t[1..] == w + t;
  }
}
module JsonStrings {
  import opened Common
  import opened JsonScan
  import opened JsonEscaping
  import Cesu
  import Hex

  /** The closing quote ends the string and is stepped over. */
  lemma {:induction false} ClosingQuote(delim: char, room: nat, w: seq<char>, used: nat, rest: seq<char>)
    requires IsQuote(delim) && |w| < room
    ensures UnescapeFrom([delim] + rest, delim, room, w, used) == Ok(Decoded(w, used + 2, true))
  {
  }

  /** Decoding the escaped form of `t` and a closing quote writes `t` and
      stops after the quote. */
  lemma {:induction false} QuotedChain(delim: char, room: nat, t: seq<char>, rest: seq<char>, used: nat)
    requires IsQuote(delim) && |t| < room
    ensures UnescapeFrom(EscapeThen(t, [delim] + rest), delim, room, [], used)
         == Ok(Decoded(t, used + |EscapeThen(t, [delim] + rest)| - |rest| + 1, true))
  {
    var post := [delim] + rest;
    UnescapeEscaped(delim, room, [], used, t, post);
    ClosingQuote(delim, room, [] + t, used + |EscapeThen(t, post)| - |post|, rest);
    assert [] + t == t;
  }

  /** `get_string` on a string opened by `s[SkipBlanks(s, p)]`. */
  lemma {:induction false} DecodeAt(s: seq<char>, p: nat, size: nat)
    requires Terminated(s) && p < |s| && size >= 1 && s[SkipBlanks(s, p)] != NUL
    ensures DecodeString(s, p, size)
         == UnescapeFrom(s[SkipBlanks(s, p) + 1..], s[SkipBlanks(s, p)], size - 1, [], SkipBlanks(s, p))
  {
  }

  /** Round trip: where the text holds, after blanks, a quoted string
      whose body is the escaped form of `t`, `get_string` returns `t` and
      leaves the cursor just after the closing quote, whenever the buffer
      has room for `t` and one more character besides the NUL. */
  lemma {:induction false} DecodeQuoted(s: seq<char>, p: nat, size: nat, delim: char, t: seq<char>, rest: seq<char>)
    requires Terminated(s) && p < |s| && |t| + 2 <= size && IsQuote(delim)
    requires s[SkipBlanks(s, p)] == delim && s[SkipBlanks(s, p) + 1..] == EscapeThen(t, [delim] + rest)
    ensures DecodeString(s, p, size) == Ok(Decoded(t, |s| - |rest|, true))
  {
    var k := SkipBlanks(s, p);
    var q := s[k + 1..];
    DecodeAt(s, p, size);
    assert DecodeString(s, p, size) == UnescapeFrom(q, delim, size - 1, [], k);
    QuotedChain(delim, size - 1, t, rest, k);
    assert |q| == |s| - k - 1;
    assert k + |EscapeThen(t, [delim] + rest)| - |rest| + 1 == |s| - |rest|;
  }

  /** A `\uXXXX` escape writes the CESU-8 bytes of the code point, one
      character per byte, or fails with BufferOverflow when they do not fit
      in what is left of the buffer; the cursor moves six places. */
  lemma {:induction false} UnicodeEscape(delim: char, room: nat, w: seq<char>, used: nat, cp: nat, tail: seq<char>)
    requires IsQuote(delim) && |w| < room && cp < 0x10000
    ensures UnescapeFrom(['\\', 'u'] + Hex.HexQuad(cp) + tail, delim, room, w, used)
         == if |w| + |Cesu.Encode(cp)| > room then Err(BufferOverflow)
            else UnescapeFrom(tail, delim, room, w + Cesu.AsChars(Cesu.Encode(cp)), used + 6)
  {
    var q := ['\\', 'u'] + Hex.HexQuad(cp) + tail;
    assert q[0] == '\\' && q[1] == 'u';
    assert q[2..6] == Hex.HexQuad(cp);
    assert q[6..] == tail;
    Hex.HexQuadRoundTrip(cp);
  }

  /** An escape letter that is neither a simple escape nor `u` writes
      nothing; the cursor moves past the backslash and the letter. */
  lemma {:induction false} UnknownEscape(delim: char, room: nat, w: seq<char>, used: nat, e: char, tail: seq<char>)
    requires IsQuote(delim) && |w| < room && !IsSimpleEscape(e) && e != 'u'
    ensures UnescapeFrom(['\\', e] + tail, delim, room, w, used) == UnescapeFrom(tail, delim, room, w, used + 2)
  {
    var q := ['\\', e] + tail;
    assert q[0] == '\\' && q[1] == e;
    assert q[2..] == tail;
  }

  /** A `\u` followed by four characters that are not all hex digits is
      an InvalidHexDigit error. */
  lemma {:induction false} BadHex(delim: char, room: nat, w: seq<char>, used: nat, h: seq<char>, tail: seq<char>)
    requires IsQuote(delim) && |w| < room && |h| == 4 && Hex.Hex4(h).None?
    ensures UnescapeFrom(['\\', 'u'] + h + tail, delim, room, w, used) == Err(InvalidHexDigit)
  {
    var q := ['\\', 'u'] + h + tail;
    assert q[0] == '\\' && q[1] == 'u';
    assert q[2..6] == h;
  }

  /** A backslash as the last character of the text reads past its end. */
  lemma {:induction false} TrailingBackslash(delim: char, room: nat, w: seq<char>, used: nat)
    requires IsQuote(delim) && |w| < room
    ensures UnescapeFrom(['\\'], delim, room, w, used) == Err(ReadPastEnd)
  {
  }

  /** Stops with the buffer full: the last character of `t` fills it. */
  lemma {:induction false} BufferFull(delim: char, room: nat, w: seq<char>, used: nat, q: seq<char>)
    requires delim != NUL && |w| == room
    ensures UnescapeFrom(q, delim, room, w, used) == Ok(Decoded(w, used, false))
  {
  }

  /** Decoding the escaped form of `t` into a buffer with room for
      exactly `|t|` characters. */
  lemma {:induction false} TruncatedChain(delim: char, t: seq<char>, post: seq<char>, used: nat)
    requires IsQuote(delim)
    ensures UnescapeFrom(EscapeThen(t, post), delim, |t|, [], used)
         == Ok(Decoded(t, used + |EscapeThen(t, post)| - |post|, false))
  {
    UnescapeEscaped(delim, |t|, [], used, t, post);
    BufferFull(delim, |t|, [] + t, used + |EscapeThen(t, post)| - |post|, post);
    assert [] + t == t;
  }

  /** A buffer with room for exactly `|t|` characters is filled with `t`,
      silently truncating the string; `get_string` then stops with the
      cursor on the last character it consumed. */
  lemma {:induction false} DecodeTruncated(s: seq<char>, p: nat, delim: char, t: seq<char>, post: seq<char>)
    requires Terminated(s) && p < |s| && IsQuote(delim)
    requires s[SkipBlanks(s, p)] == delim && s[SkipBlanks(s, p) + 1..] == EscapeThen(t, post)
    ensures DecodeString(s, p, |t| + 1) == Ok(Decoded(t, |s| - |post| - 1, false))
  {
    var k := SkipBlanks(s, p);
    var q := s[k + 1..];
    DecodeAt(s, p, |t| + 1);
    assert DecodeString(s, p, |t| + 1) == UnescapeFrom(q, delim, |t|, [], k);
    TruncatedChain(delim, t, post, k);
    assert |q| == |s| - k - 1;
    assert k + |EscapeThen(t, post)| - |post| == |s| - |post| - 1;
  }

  /** The terminating NUL is copied like any other character, and then
      the text has run out. */
  lemma {:induction false} NulThenEnd(delim: char, room: nat, w: seq<char>, used: nat)
    requires IsQuote(delim) && |w| + 2 <= room
    ensures UnescapeFrom([NUL], delim, room, w, used) == Err(ReadPastEnd)
  {
    assert [NUL][1..] == [];
  }

  /** Without a closing quote the loop copies the terminating NUL and reads
      past the end of the text, when the buffer has room for both. */
  lemma {:induction false} UnclosedChain(delim: char, room: nat, t: seq<char>, used: nat)
    requires IsQuote(delim) && |t| + 2 <= room
    ensures UnescapeFrom(EscapeThen(t, [NUL]), delim, room, [], used) == Err(ReadPastEnd)
  {
    UnescapeEscaped(delim, room, [], used, t, [NUL]);
    NulThenEnd(delim, room, [] + t, used + |EscapeThen(t, [NUL])| - 1);
  }

  /** A string left open before the end of the text is a ReadPastEnd error
      when the buffer is not filled first. */
  lemma {:induction false} DecodeUnclosed(s: seq<char>, p: nat, size: nat, delim: char, t: seq<char>)
    requires Terminated(s) && p < |s| && |t| + 3 <= size && IsQuote(delim)
    requires s[SkipBlanks(s, p)] == delim && s[SkipBlanks(s, p) + 1..] == EscapeThen(t, [NUL])
    ensures DecodeString(s, p, size) == Err(ReadPastEnd)
  {
    DecodeAt(s, p, size);
    UnclosedChain(delim, size - 1, t, SkipBlanks(s, p));
  }

  /** `"\u00e9"` decodes to the two CESU-8 bytes of U+00E9. */
  lemma {:induction false} DecodeAccent()
    ensures DecodeString(['"', '\\', 'u', '0', '0', 'e', '9', '"', NUL], 0, 8)
         == Ok(Decoded([0xC3 as char, 0xA9 as char], 8, true))
  {
    var s := ['"', '\\', 'u', '0', '0', 'e', '9', '"', NUL];
    var b := Cesu.AsChars(Cesu.Encode(0xE9));
    assert Hex.HexQuad(0xE9) == ['0', '0', 'e', '9'];
    assert s[1..] == ['\\', 'u'] + Hex.HexQuad(0xE9) + (['"'] + [NUL]);
    assert SkipBlanks(s, 0) == 0;
    DecodeAt(s, 0, 8);
    UnicodeEscape('"', 7, [], 0, 0xE9, ['"'] + [NUL]);
    assert [] + b == [0xC3 as char, 0xA9 as char];
    ClosingQuote('"', 7, [] + b, 6, [NUL]);
  }

  /** In a C string, no character before the last is NUL. */
  lemma {:induction false} NotNul(s: seq<char>, k: nat)
    requires CString(s) && k < |s| - 1
    ensures s[k] != NUL
  {
    assert s[k] == s[..|s| - 1][k];
  }

  /** `chomp_string` steps over a hex digit one place at a time. */
  lemma {:induction false} ChompHex(s: seq<char>, k: nat, delim: char)
    requires Terminated(s) && k + 1 < |s| && IsQuote(delim) && s[k] != NUL && Hex.IsHexDigit(s[k + 1])
    ensures ChompFrom(s, k, delim) == ChompFrom(s, k + 1, delim)
  {
  }

  /** `chomp_string` steps over the `u` and the four digits of a `\u`
      escape as over plain characters. */
  lemma {:induction false} ChompUnicode(s: seq<char>, c: nat, delim: char)
    requires CString(s) && c + 6 < |s| && IsQuote(delim) && s[c + 2] == 'u'
    requires Hex.Hex4(s[c + 3..c + 7]).Some?
    ensures ChompFrom(s, c + 2, delim) == ChompFrom(s, c + 6, delim)
  {
    assert s[c + 3] == s[c + 3..c + 7][0] && s[c + 4] == s[c + 3..c + 7][1];
    assert s[c + 5] == s[c + 3..c + 7][2] && s[c + 6] == s[c + 3..c + 7][3];
    ChompHex(s, c + 2, delim);
    ChompHex(s, c + 3, delim);
    ChompHex(s, c + 4, delim);
    ChompHex(s, c + 5, delim);
  }

  /** Where `get_string` ends on a closing quote, `chomp_string` started at
      the same place ends at the same place: skipping a string agrees with
      reading it. */
  lemma {:induction false} ChompUnescape(s: seq<char>, c: nat, delim: char, room: nat, w: seq<char>)
    requires CString(s) && c < |s| && IsQuote(delim) && |w| <= room
    ensures var r := UnescapeFrom(s[c + 1..], delim, room, w, c);
      r.Ok? && r.value.closed ==> ChompFrom(s, c, delim) == r.value.cursor
    decreases |s| - c
  {
    var q := s[c + 1..];
    if |w| < room && |q| > 0 {
      NotNul(s, c);
      if q[0] == delim {
      } else if q[0] == '\\' {
        if |q| > 1 {
          assert q[2..] == s[c + 3..];
          if IsSimpleEscape(q[1]) {
            ChompUnescape(s, c + 2, delim, room, w + [Unescaped(q[1])]);
          } else if q[1] != 'u' {
            ChompUnescape(s, c + 2, delim, room, w);
          } else if |q| >= 6 && Hex.Hex4(q[2..6]).Some? {
            var b := Cesu.AsChars(Cesu.Encode(Hex.Hex4(q[2..6]).value));
            assert q[6..] == s[c + 7..];
            assert q[2..6] == s[c + 3..c + 7];
            if |q| > 6 {
              ChompUnicode(s, c, delim);
            }
            if |w| + |b| <= room {
              ChompUnescape(s, c + 6, delim, room, w + b);
            }
          }
        }
      } else {
        assert q[1..] == s[c + 2..];
        ChompUnescape(s, c + 1, delim, room, w + [q[0]]);
      }
    }
  }

  /** `chomp_string` and a `get_string` that reads a whole string from the
      same place leave the cursor at the same place. */
  lemma {:induction false} ChompAgrees(s: seq<char>, p: nat, size: nat)
    requires CString(s) && p < |s| && size >= 1 && IsQuote(s[SkipBlanks(s, p)])
    ensures var r := DecodeString(s, p, size);
      r.Ok? && r.value.closed ==> Chomp(s, p) == r.value.cursor
  {
    var start := SkipBlanks(s, p);
    DecodeAt(s, p, size);
    ChompUnescape(s, start, s[start], size - 1, []);
  }

  /** `chomp_string` skips a quoted string written by an encoder: the
      cursor ends just after the closing quote. */
  lemma {:induction false} ChompQuoted(s: seq<char>, p: nat, delim: char, t: seq<char>, rest: seq<char>)
    requires CString(s) && p < |s| && IsQuote(delim)
    requires s[SkipBlanks(s, p)] == delim && s[SkipBlanks(s, p) + 1..] == EscapeThen(t, [delim] + rest)
    ensures Chomp(s, p) == |s| - |rest|
  {
    DecodeQuoted(s, p, |t| + 2, delim, t, rest);
    ChompAgrees(s, p, |t| + 2);
  }
}
