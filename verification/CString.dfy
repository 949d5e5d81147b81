module CString {
  /** A C string: reading at its end gives the terminating zero. */
  function At(s: seq<nat>, i: nat): nat {
    if i < |s| then s[i] else 0
  }
}
