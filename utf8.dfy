/** UTF-8 validity as defined by the `UTF8-octets` grammar of section 4 of RFC 3629,
    which is what a call to `std::str::from_utf8` accepts.  This is the fact the whole
    RSV format rests on: the three delimiter bytes can never occur inside valid UTF-8.
 */
module Utf8 {

  /** An octet. */
  type byte = b: int | 0 <= b < 0x100

  /** UTF8-tail = %x80-BF */
  predicate Tail(b: byte) {
    0x80 <= b <= 0xBF
  }

  /** The number of octets of the well-formed character (UTF8-char of RFC 3629
      section 4) that starts `s`, or 0 when `s` does not start with one. */
  function CharWidth(s: seq<byte>): (n: nat)
    ensures n <= |s| && n <= 4
  {
    if |s| == 0 then 0
    // UTF8-1 = %x00-7F
    else if s[0] <= 0x7F then 1
    // UTF8-2 = %xC2-DF UTF8-tail
    else if 0xC2 <= s[0] <= 0xDF then
      if |s| >= 2 && Tail(s[1]) then 2 else 0
    // UTF8-3 = %xE0 %xA0-BF UTF8-tail / %xE1-EC 2( UTF8-tail ) /
    //          %xED %x80-9F UTF8-tail / %xEE-EF 2( UTF8-tail )
    else if s[0] == 0xE0 then
      if |s| >= 3 && 0xA0 <= s[1] <= 0xBF && Tail(s[2]) then 3 else 0
    else if 0xE1 <= s[0] <= 0xEC || 0xEE <= s[0] <= 0xEF then
      if |s| >= 3 && Tail(s[1]) && Tail(s[2]) then 3 else 0
    else if s[0] == 0xED then
      if |s| >= 3 && 0x80 <= s[1] <= 0x9F && Tail(s[2]) then 3 else 0
    // UTF8-4 = %xF0 %x90-BF 2( UTF8-tail ) / %xF1-F3 3( UTF8-tail ) /
    //          %xF4 %x80-8F 2( UTF8-tail )
    else if s[0] == 0xF0 then
      if |s| >= 4 && 0x90 <= s[1] <= 0xBF && Tail(s[2]) && Tail(s[3]) then 4 else 0
    else if 0xF1 <= s[0] <= 0xF3 then
      if |s| >= 4 && Tail(s[1]) && Tail(s[2]) && Tail(s[3]) then 4 else 0
    else if s[0] == 0xF4 then
      if |s| >= 4 && 0x80 <= s[1] <= 0x8F && Tail(s[2]) && Tail(s[3]) then 4 else 0
    else 0
  }

  /** UTF8-octets = *( UTF8-char ): `s` is a sequence of well-formed characters. */
  predicate Valid(s: seq<byte>)
    decreases |s|
  {
    |s| == 0 || (CharWidth(s) > 0 && Valid(s[CharWidth(s)..]))
  }

  /** An octet that may appear in valid UTF-8: section 1 of RFC 3629 says that
      C0, C1 and F5 to FF never do. */
  predicate Permitted(b: byte) {
    b != 0xC0 && b != 0xC1 && b < 0xF5
  }

  /** Every octet of the first character of `s` is a permitted octet. */
  lemma FirstCharPermitted(s: seq<byte>)
    requires CharWidth(s) > 0
    ensures forall i :: 0 <= i < CharWidth(s) ==> Permitted(s[i])
  {
  }

  /** Every octet of a valid UTF-8 sequence is permitted. */
  lemma {:induction false} ValidOctetsPermitted(s: seq<byte>)
    requires Valid(s)
    ensures forall i :: 0 <= i < |s| ==> Permitted(s[i])
  {
    if |s| > 0 {
      var n := CharWidth(s);
      FirstCharPermitted(s);
      ValidOctetsPermitted(s[n..]);
      forall i | n <= i < |s| ensures Permitted(s[i]) {
        assert s[i] == s[n..][i - n];
      }
    }
  }

  /** The delimiter bytes of RSV (0xFD, 0xFE and 0xFF) never occur in valid UTF-8. */
  lemma NoDelimiters(s: seq<byte>)
    requires Valid(s)
    ensures 0xFD !in s && 0xFE !in s && 0xFF !in s
  {
    ValidOctetsPermitted(s);
  }

  /** A sequence of ASCII octets (UTF8-1 only) is valid. */
  lemma {:induction false} AsciiValid(s: seq<byte>)
    requires forall i :: 0 <= i < |s| ==> s[i] <= 0x7F
    ensures Valid(s)
  {
    if |s| > 0 {
      assert CharWidth(s) == 1;
      AsciiValid(s[1..]);
    }
  }
}
