/** Facts about sequences shared by the modules that build logs and buffers. */
module Sequences {

  /** Concatenation is associative (stated once, so callers need not re-derive it by extensionality). */
  lemma ConcatAssociative<T>(a: seq<T>, b: seq<T>, c: seq<T>)
    ensures a + b + c == a + (b + c)
  {
  }

  /** The prefix of a sequence up to its own length is the whole sequence. */
  lemma TakeAll<T>(s: seq<T>)
    ensures s[..|s|] == s
  {
  }
}
