/** Which byte sequences are well-formed UTF-8. */
module Utf8 {
  import opened Basics

  predicate InRange(s: Bytes, i: nat, lo: int, hi: int) {
    i < |s| && lo <= s[i] as int <= hi
  }

  /** The length of the encoded scalar at the front, or zero when it is malformed. */
  function Utf8Prefix(s: Bytes): (n: nat)
    requires s != []
    ensures n <= |s|
  {
    if InRange(s, 0, 0x00, 0x7F) then 1
    else if InRange(s, 0, 0xC2, 0xDF) && InRange(s, 1, 0x80, 0xBF) then 2
    else if InRange(s, 1, if s[0] as int == 0xE0 then 0xA0 else 0x80, if s[0] as int == 0xED then 0x9F else 0xBF)
         && InRange(s, 0, 0xE0, 0xEF) && InRange(s, 2, 0x80, 0xBF) then 3
    else if InRange(s, 1, if s[0] as int == 0xF0 then 0x90 else 0x80, if s[0] as int == 0xF4 then 0x8F else 0xBF)
         && InRange(s, 0, 0xF0, 0xF4) && InRange(s, 2, 0x80, 0xBF) && InRange(s, 3, 0x80, 0xBF) then 4
    else 0
  }

  predicate ValidUtf8(s: Bytes)
    decreases |s|
  {
    s == [] || (Utf8Prefix(s) > 0 && ValidUtf8(s[Utf8Prefix(s)..]))
  }
}
