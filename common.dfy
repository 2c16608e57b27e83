/** Error kinds and the result type shared by the decoder and the scanner.

    Every place where the C code aborts the process (`t2_d_die`, a failed
    `t2_d_assert`, a failed `assert`) becomes one of these errors. */
module Common {

  /** A byte of the input or output buffer. */
  type byte = x: nat | x < 256

  datatype Error =
    | BufferExhausted      // read past the end of the input buffer
    | BufferOverflow       // write past the end of the output buffer
    | TooManyBits          // a bit read of more than 64 bits
    | InvalidCodeLength    // a code length outside 1..15 reached the table
    | InvalidCode          // a Huffman code longer than the table's maximum
    | InvalidSymbol        // literal/length symbol 286 or 287
    | InvalidLengthSymbol  // a length symbol outside 257..285
    | InvalidDistanceSymbol // a distance symbol outside 0..29
    | InvalidDistance      // a back-reference further back than the output
    | InvalidRepeat        // code-length op 16 with no previous length
    | RunTooLong           // a code-length run past the end of the lengths
    | InvalidLengthOp      // a code-length op above 18
    | LengthMismatch       // stored block with NLEN != ~LEN
    | InvalidBlockType     // block type 3
    | InvalidHexDigit      // a `\u` escape with a non-hex digit
    | ReadPastEnd          // the scanner ran past the terminating NUL
    | StackOverflow        // more than ten saved scanner positions
    | StackUnderflow       // a restore with nothing saved

  /** What a buffer holds after a position stays as in the first snapshot
      across two steps, each of which kept everything after its own
      position, the second's no earlier than the first's. */
  lemma {:induction false} KeptTrans<T>(first: seq<T>, mid: seq<T>, last: seq<T>, p: nat, q: nat)
    requires p <= q <= |first| && |first| == |mid| == |last|
    requires mid[p..] == first[p..] && last[q..] == mid[q..]
    ensures last[q..] == first[q..]
  {
    assert mid[q..] == mid[p..][q - p..];
    assert first[q..] == first[p..][q - p..];
  }

  datatype Option<+T> = None | Some(value: T)

  datatype Result<+T> = Ok(value: T) | Err(error: Error) {
    predicate IsFailure() {
      Err?
    }

    function PropagateFailure<U>(): Result<U>
      requires Err?
    {
      Err(error)
    }

    function Extract(): T
      requires Ok?
    {
      value
    }
  }
}
