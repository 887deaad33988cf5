/** Well-formed UTF-8, as section 4 of RFC 3629 defines it: what a Rust `String` holds
    and what `std::str::from_utf8` accepts. */
module Utf8 {
  import opened Prelude

  predicate Tail(b: Byte) { 0x80 <= b <= 0xBF }

  /** The length of the character `s` starts with, or 0 when `s` starts with no character. */
  function CharLen(s: Bytes): (n: nat)
    requires s != []
    ensures n <= |s|
    ensures n > 1 ==> forall i | 0 <= i < n :: s[i] >= 0x80
    ensures n == 1 ==> s[0] < 0x80
  {
    var b := s[0];
    if b < 0x80 then 1
    else if |s| >= 2 && 0xC2 <= b <= 0xDF && Tail(s[1]) then 2
    else if |s| >= 3 && Tail(s[1]) && Tail(s[2]) &&
            ((b == 0xE0 && 0xA0 <= s[1]) || 0xE1 <= b <= 0xEC || (b == 0xED && s[1] <= 0x9F) || 0xEE <= b <= 0xEF)
    then 3
    else if |s| >= 4 && Tail(s[1]) && Tail(s[2]) && Tail(s[3]) &&
            ((b == 0xF0 && 0x90 <= s[1]) || 0xF1 <= b <= 0xF3 || (b == 0xF4 && s[1] <= 0x8F)) then 4
    else 0
  }

  predicate ValidUtf8(s: Bytes)
    decreases |s|
  {
    s == [] || (CharLen(s) > 0 && ValidUtf8(s[CharLen(s)..]))
  }

  /** A character is read the same whatever follows it. */
  lemma CharLenStable(s: Bytes, rest: Bytes)
    requires s != [] && CharLen(s) > 0
    ensures var n := CharLen(s); CharLen(s[..n] + rest) == n && (s[..n] + rest)[n..] == rest
  {
  }

  lemma {:induction false} AsciiIsUtf8(s: Bytes)
    requires forall i | 0 <= i < |s| :: s[i] < 0x80
    ensures ValidUtf8(s)
    decreases |s|
  {
    if s != [] {
      AsciiIsUtf8(s[1..]);
    }
  }
}
