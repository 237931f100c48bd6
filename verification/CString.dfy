/** C strings: octets in memory up to a NUL. A pointer is a sequence (or array) and an index. */
module CString {
  import opened Ascii

  datatype Option<+T> = None | Some(value: T)

  /** The character at `i`, NUL past the end. */
  function CharAt(s: seq<Char>, i: nat): Char {
    if i < |s| then s[i] else NUL
  }

  /** A NUL-terminated string starts at `at`. */
  ghost predicate IsStr(s: seq<Char>, at: nat) {
    exists k :: at <= k < |s| && s[k] == NUL
  }

  /** The length of the string at `at`, counting up to `max` characters. */
  function LenN(s: seq<Char>, at: nat, max: nat): (n: nat)
    ensures n <= max
    ensures forall k :: at <= k < at + n ==> CharAt(s, k) != NUL
    ensures n < max ==> CharAt(s, at + n) == NUL
    decreases max
  {
    if max == 0 || CharAt(s, at) == NUL then 0 else 1 + LenN(s, at + 1, max - 1)
  }

  /** Memory that a search of at most `max` characters may read: up to a NUL, or one character past
      the last one searched, since the loops look at a character before they look at the count. */
  ghost predicate Readable(s: seq<Char>, at: nat, max: nat) {
    at + LenN(s, at, max) < |s|
  }
}
