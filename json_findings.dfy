/** Two places where the JSON scanner's code does not do what its names
    and comments say, modelled as written beside the counterexamples that
    show it.  The rest of the model uses the intended behaviour. */
module JsonFindings {
  import opened Common
  import opened JsonScan
  import opened JsonParser

  /** `tok`'s keyword tests as written (t2_json.c:46, 94-96) misread every
      keyword: `true` and `null` are FALSE and `false` is TRUE, where the
      intended classification recognises each of them. */
  lemma {:induction false} KeywordsInverted()
    ensures Classify("true\0", 0) == False && ClassifyKeywords("true\0", 0) == True
    ensures Classify("null\0", 0) == False && ClassifyKeywords("null\0", 0) == Null
    ensures Classify("false\0", 0) == True && ClassifyKeywords("false\0", 0) == False
  {
    assert StartsWith("true\0", 0, "true");
    assert StartsWith("null\0", 0, "null");
    assert StartsWith("false\0", 0, "false");
    assert "true\0"[0..4] == "true";
    assert "null\0"[0..4] == "null";
  }

  /** What `t2_json_restore` returns as written (t2_json.c:176): after the
      decrement it reads slot `n + 1`, the one above the slot it restores,
      which is past the array when all ten slots were in use. */
  function RestoreResult(slots: seq<Slot>, depth: nat): (r: Option<Slot>)
    requires 0 < depth <= |slots|
    ensures r.Some? <==> depth < |slots|
    ensures r.Some? ==> r.value in slots[depth..]
  {
    if depth < |slots| then Some(slots[depth]) else None
  }

  /** Save at cursor 4 on a fresh parser, move the cursor to 9 and
      restore: the C code returns the NULL slot that `t2_json_init` left,
      not the cursor 9 its declaration promises.  `t2_json_string_len`
      subtracts that pointer (t2_json.c:182-188). */
  lemma {:induction false} RestoreReturnsStale()
    ensures RestoreResult([At(4)] + seq(StackLength - 1, _ => Unset), 1) == Some(Unset)
  {
    var slots := [At(4)] + seq(StackLength - 1, _ => Unset);
    assert slots[1] == Unset;
  }
}
