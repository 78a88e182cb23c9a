/** Well-formed UTF-8 (the check `CStr::to_str` performs): shortest-form
    sequences of one to four bytes, no surrogates, nothing above U+10FFFF. */
module Utf8 {
  import opened Bytes

  predicate IsContinuation(b: byte) {
    0x80 <= b <= 0xBF
  }

  /** Length of the well-formed sequence starting at `s[0]`, or 0 when `s`
      does not start with one. */
  function LeadingScalarLength(s: bytes): (n: nat)
    ensures n <= |s| && n <= 4
    ensures n > 0 ==> |s| > 0 && (n == 1 <==> s[0] < 0x80)
  {
    if |s| == 0 then 0
    else if s[0] < 0x80 then 1
    else if 0xC2 <= s[0] <= 0xDF then
      if |s| >= 2 && IsContinuation(s[1]) then 2 else 0
    else if 0xE0 <= s[0] <= 0xEF then
      var lo := if s[0] == 0xE0 then 0xA0 else 0x80;
      var hi := if s[0] == 0xED then 0x9F else 0xBF;
      if |s| >= 3 && lo <= s[1] <= hi && IsContinuation(s[2]) then 3 else 0
    else if 0xF0 <= s[0] <= 0xF4 then
      var lo := if s[0] == 0xF0 then 0x90 else 0x80;
      var hi := if s[0] == 0xF4 then 0x8F else 0xBF;
      if |s| >= 4 && lo <= s[1] <= hi && IsContinuation(s[2]) && IsContinuation(s[3]) then 4 else 0
    else 0
  }

  predicate ValidUtf8(s: bytes)
    decreases |s|
  {
    |s| == 0 || (LeadingScalarLength(s) > 0 && ValidUtf8(s[LeadingScalarLength(s)..]))
  }
}
