/** Strings in buffers of fixed size that end in NUL. */
module CStrings {

  /** What a bounded copy into a buffer of the given size keeps of a string. */
  function Cut(s: string, size: nat): (r: string)
    requires size >= 1
    ensures r <= s && |r| == (if |s| < size then |s| else size - 1)
    ensures r == s <==> |s| < size
  {
    if |s| < size then s else s[..size - 1]
  }
}
