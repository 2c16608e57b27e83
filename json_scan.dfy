/** The JSON scanner of t2_json.c as functions over the text: the cursor
    `j->S` is an index into a NUL-terminated `seq<char>`.  These are the
    specifications the parser's methods are proved against. */
module JsonScan {
  import opened Common
  import Cesu
  import Hex

  const NUL: char := '\0'
  const Backspace: char := 8 as char
  const FormFeed: char := 12 as char

  /** The text ends with its terminating NUL. */
  predicate Terminated(s: seq<char>) {
    |s| > 0 && s[|s| - 1] == NUL
  }

  /** A C string: terminated, and with no NUL before the end. */
  predicate CString(s: seq<char>) {
    Terminated(s) && NUL !in s[..|s| - 1]
  }

  /** `isblank`: space or tab. */
  predicate IsBlank(c: char) {
    c == ' ' || c == '\t'
  }

  /** `sync` (t2_json.c:45): the first non-blank at or after `p`. */
  function SkipBlanks(s: seq<char>, p: nat): (q: nat)
    requires Terminated(s) && p < |s|
    ensures p <= q < |s| && !IsBlank(s[q])
    ensures forall k :: p <= k < q ==> IsBlank(s[k])
    decreases |s| - p
  {
    if IsBlank(s[p]) then SkipBlanks(s, p + 1) else p
  }

  /** `enum t2_json_type`, extended with the four punctuation tokens `tok`
      returns as their own character. */
  datatype JsonType =
    | Error | End | Str | Number | False | True | Null
    | Object | Array | CloseObject | CloseArray | Colon | Comma

  /** The value of each token in C: the enumerators count from 0, and the
      brackets and punctuation are their ASCII codes. */
  function Code(t: JsonType): nat {
    match t
    case Error => 0
    case End => 1
    case Str => 2
    case Number => 3
    case False => 4
    case True => 5
    case Null => 6
    case Object => '{' as int
    case Array => '[' as int
    case CloseObject => '}' as int
    case CloseArray => ']' as int
    case Colon => ':' as int
    case Comma => ',' as int
  }

  /** The cases of `tok`'s switch (t2_json.c:65-92); None for the default
      branch. */
  function Structural(c: char): (r: Option<JsonType>)
    ensures r == Some(End) <==> c == NUL
    ensures r == Some(Str) <==> c == '"' || c == '\''
    ensures r == Some(Number) <==> '0' <= c <= '9' || c == '-'
    ensures c in "[{]}:," <==> r.Some? && Code(r.value) == c as int
    ensures r.Some? ==> r.value !in {Error, False, True, Null}
  {
    if c == NUL then Some(End)
    else if c == '"' || c == '\'' then Some(Str)
    else if '0' <= c <= '9' || c == '-' then Some(Number)
    else if c == '[' then Some(Array)
    else if c == '{' then Some(Object)
    else if c == ']' then Some(CloseArray)
    else if c == '}' then Some(CloseObject)
    else if c == ':' then Some(Colon)
    else if c == ',' then Some(Comma)
    else None
  }

  /** `tok` on the character at `q`, as written (t2_json.c:94-98):
      `match` returns `strcmp`'s result, which is nonzero when the rest of
      the text differs from the keyword, so every other character is
      FALSE, except when the rest is exactly "false", which is TRUE. */
  function Classify(s: seq<char>, q: nat): (t: JsonType)
    requires CString(s) && q < |s|
    ensures Structural(s[q]).Some? ==> t == Structural(s[q]).value
    ensures Structural(s[q]).None? ==> t == (if s[q..|s| - 1] == "false" then True else False)
    ensures t != Null && t != Error
  {
    match Structural(s[q])
    case Some(t) => t
    case None =>
      // When the rest is "false" it is not "true", so the second test
      // always returns TRUE and the NULL and ERROR returns are never reached.
      if s[q..|s| - 1] != "false" then False else True
  }

  /** The text at `q` starts with `w`. */
  predicate StartsWith(s: seq<char>, q: nat, w: string) {
    q + |w| <= |s| && s[q..q + |w|] == w
  }

  /** `tok` with the keyword test it evidently intends: a keyword is
      recognised when the text at `q` starts with it, and any other
      character is an ERROR. */
  function ClassifyKeywords(s: seq<char>, q: nat): (t: JsonType)
    requires Terminated(s) && q < |s|
    ensures Structural(s[q]).Some? ==> t == Structural(s[q]).value
    ensures t == False <==> StartsWith(s, q, "false")
    ensures t == True <==> StartsWith(s, q, "true")
    ensures t == Null <==> StartsWith(s, q, "null")
    ensures t == Error <==>
              Structural(s[q]).None? && !StartsWith(s, q, "false") && !StartsWith(s, q, "true") && !StartsWith(s, q, "null")
  {
    match Structural(s[q])
    case Some(t) =>
      assert s[q] != 'f' && s[q] != 't' && s[q] != 'n';
      t
    case None =>
      if StartsWith(s, q, "false") then False
      else if StartsWith(s, q, "true") then True
      else if StartsWith(s, q, "null") then Null
      else Error
  }

  /** The two classifications differ only on characters outside the
      switch: on every character the switch names they agree. */
  lemma {:induction false} ClassifyAgrees(s: seq<char>, q: nat)
    requires CString(s) && q < |s| && Structural(s[q]).Some?
    ensures Classify(s, q) == ClassifyKeywords(s, q)
  {
  }

  /** The loop of `chomp_string` (t2_json.c:106-116) with the cursor at
      `p`: step over one character; stop after it if it is the delimiter;
      after a backslash step over one more; stop at the NUL. */
  function ChompFrom(s: seq<char>, p: nat, delim: char): (q: nat)
    requires Terminated(s) && p < |s| && delim != NUL
    ensures p <= q < |s|
    decreases |s| - p
  {
    if s[p] == NUL then p
    else if s[p + 1] == delim then p + 2
    else if s[p + 1] == '\\' then ChompFrom(s, p + 2, delim)
    else ChompFrom(s, p + 1, delim)
  }

  /** `chomp_string` (t2_json.c:101-117): skip blanks, take the character
      there as the delimiter and skip past the string it opens.  The
      result never passes the terminating NUL. */
  function Chomp(s: seq<char>, p: nat): (q: nat)
    requires Terminated(s) && p < |s|
    ensures SkipBlanks(s, p) <= q < |s|
  {
    var start := SkipBlanks(s, p);
    if s[start] == NUL then start else ChompFrom(s, start, s[start])
  }

  /** The escapes `get_string` maps to one character. */
  predicate IsSimpleEscape(e: char) {
    e in "\"'\\bfnrt"
  }

  /** The character a simple escape stands for. */
  function Unescaped(e: char): char
    requires IsSimpleEscape(e)
  {
    match e
    case 'b' => Backspace
    case 'f' => FormFeed
    case 'n' => '\n'
    case 'r' => '\r'
    case 't' => '\t'
    case _ => e
  }

  /** The characters of a string that an encoder has to escape. */
  predicate NeedsEscape(c: char) {
    c in ['"', '\'', '\\', Backspace, FormFeed, '\n', '\r', '\t']
  }

  /** The escape letter of such a character. */
  function EscapeLetter(c: char): (e: char)
    requires NeedsEscape(c)
    ensures IsSimpleEscape(e) && Unescaped(e) == c
  {
    if c == Backspace then 'b'
    else if c == FormFeed then 'f'
    else if c == '\n' then 'n'
    else if c == '\r' then 'r'
    else if c == '\t' then 't'
    else c
  }

  /** How an encoder writes one character of a string inside quotes. */
  function EscapeChar(c: char): (r: seq<char>)
    ensures r == [c] || (NeedsEscape(c) && r == ['\\', EscapeLetter(c)])
  {
    if NeedsEscape(c) then ['\\', EscapeLetter(c)] else [c]
  }

  /** The body of a quoted string holding `t`, each special character
      written as its two-character escape, followed by the text `post`. */
  function EscapeThen(t: seq<char>, post: seq<char>): (r: seq<char>)
    ensures |t| + |post| <= |r| <= 2 * |t| + |post|
  {
    if |t| == 0 then post else EscapeChar(t[0]) + EscapeThen(t[1..], post)
  }

  /** What `get_string` produced: the characters before the NUL it
      stores, the cursor, and whether the closing delimiter was reached
      (false when the buffer filled first). */
  datatype Decoded = Decoded(chars: seq<char>, cursor: nat, closed: bool)

  /** The loop of `get_string` (t2_json.c:126-155).  `q` is the text
      after the cursor (empty when the cursor is on the NUL), `used` the
      cursor, and `w` the characters written so far into a buffer with
      `room` places before the one the final NUL needs.  Each turn steps
      onto the next character: the delimiter ends the string and is
      stepped over; a backslash and the character after it are one escape;
      anything else is copied.  Where the C code has undefined behaviour
      the model stops with an error: reading past the NUL of an
      unterminated string (ReadPastEnd), and a `\u` escape whose bytes
      leave no place for the final NUL (BufferOverflow). */
  function UnescapeFrom(q: seq<char>, delim: char, room: nat, w: seq<char>, used: nat): (r: Result<Decoded>)
    requires delim != NUL && |w| <= room
    ensures r.Ok? ==> |r.value.chars| <= room && used <= r.value.cursor <= used + |q| + 1
    ensures r.Ok? && (q == [] || Terminated(q)) ==> r.value.cursor <= used + |q|
    ensures r.Ok? ==> w <= r.value.chars
    ensures r.Ok? && !r.value.closed ==> |r.value.chars| == room
    ensures r.Err? ==> r.error in {ReadPastEnd, InvalidHexDigit, BufferOverflow}
    decreases |q|, 1
  {
    if |w| == room then Ok(Decoded(w, used, false))
    else if |q| == 0 then Err(ReadPastEnd)
    else if q[0] == delim then Ok(Decoded(w, used + 2, true))
    else if q[0] == '\\' then EscapeFrom(q, delim, room, w, used)
    else UnescapeFrom(q[1..], delim, room, w + [q[0]], used + 1)
  }

  /** The escape case of the loop: `q` starts with a backslash.  A simple
      escape writes the character it stands for; `\u` is read by `dhex` as
      a code point whose CESU-8 bytes are written, with the cursor ending
      on the last of its four digits; any other escape writes nothing.
      Fewer than four characters before the end, or one that is not a hex
      digit, is `dhexd`'s failed assert (InvalidHexDigit). */
  function EscapeFrom(q: seq<char>, delim: char, room: nat, w: seq<char>, used: nat): (r: Result<Decoded>)
    requires delim != NUL && |w| < room && |q| >= 1
    ensures r.Ok? ==> |r.value.chars| <= room && used <= r.value.cursor <= used + |q| + 1
    ensures r.Ok? && Terminated(q) ==> r.value.cursor <= used + |q|
    ensures r.Ok? ==> w <= r.value.chars
    ensures r.Ok? && !r.value.closed ==> |r.value.chars| == room
    ensures r.Err? ==> r.error in {ReadPastEnd, InvalidHexDigit, BufferOverflow}
    decreases |q|, 0
  {
    if |q| == 1 then Err(ReadPastEnd)
    else if IsSimpleEscape(q[1]) then UnescapeFrom(q[2..], delim, room, w + [Unescaped(q[1])], used + 2)
    else if q[1] != 'u' then UnescapeFrom(q[2..], delim, room, w, used + 2)
    else if |q| < 6 then Err(InvalidHexDigit)
    else
      match Hex.Hex4(q[2..6])
      case None => Err(InvalidHexDigit)
      case Some(cp) =>
        var b := Cesu.AsChars(Cesu.Encode(cp));
        if |w| + |b| > room then Err(BufferOverflow)
        else UnescapeFrom(q[6..], delim, room, w + b, used + 6)
  }

  /** `get_string` (t2_json.c:119-158) for a buffer of `size` characters:
      skip blanks, take the character there as the delimiter and decode
      the text after it.  At the NUL the first turn of the loop already
      reads past the end, unless the buffer has room for the NUL only. */
  function DecodeString(s: seq<char>, p: nat, size: nat): (r: Result<Decoded>)
    requires Terminated(s) && p < |s| && size >= 1
    ensures r.Ok? ==> |r.value.chars| <= size - 1 && SkipBlanks(s, p) <= r.value.cursor < |s|
  {
    var start := SkipBlanks(s, p);
    if s[start] == NUL then
      if size == 1 then Ok(Decoded([], start, false)) else Err(ReadPastEnd)
    else
      assert Terminated(s[start + 1..]) by {
        assert s[start + 1..][|s| - start - 2] == s[|s| - 1];
      }
      UnescapeFrom(s[start + 1..], s[start], size - 1, [], start)
  }
}
