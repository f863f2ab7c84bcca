/**
 The C calling convention of the native library, seen from the model.

 Every string argument arrives as a NUL-terminated C string, which the
 library views through `CStr::to_str`: either the text (which cannot contain
 NUL, since NUL ends the C string) or a UTF-8 error. Output strings are
 copied, with their terminating NUL, into a caller buffer of `max_len`
 bytes, so their length is measured in UTF-8 bytes.
 */
module Ffi {

  /** A C string argument as `CStr::from_ptr(p).to_str()` sees it. */
  datatype CStr = Utf8(text: string) | NotUtf8

  /** A C string argument: its text stops before the first NUL. */
  type CArg = c: CStr | c.NotUtf8? || '\0' !in c.text witness NotUtf8

  /** Number of bytes of the UTF-8 encoding of `c`. */
  function Utf8Width(c: char): (n: nat)
    ensures 1 <= n <= 4
    ensures n == 1 <==> c as int < 0x80
  {
    if c as int < 0x80 then 1
    else if c as int < 0x800 then 2
    else if c as int < 0x1_0000 then 3
    else 4
  }

  /** Number of bytes of the UTF-8 encoding of `s` (Rust `str::len`). */
  function Utf8Length(s: string): (n: nat)
    ensures |s| <= n <= 4 * |s|
  {
    if |s| == 0 then 0 else Utf8Width(s[0]) + Utf8Length(s[1..])
  }

  lemma {:induction false} Utf8LengthAppend(a: string, b: string)
    ensures Utf8Length(a + b) == Utf8Length(a) + Utf8Length(b)
    decreases |a|
  {
    if |a| == 0 {
      assert a + b == b;
    } else {
      assert (a + b)[1..] == a[1..] + b;
      Utf8LengthAppend(a[1..], b);
    }
  }

  /** An ASCII string is as many UTF-8 bytes long as it has characters. */
  lemma {:induction false} Utf8LengthAscii(s: string)
    requires forall i :: 0 <= i < |s| ==> s[i] as int < 0x80
    ensures Utf8Length(s) == |s|
    decreases |s|
  {
    if |s| > 0 {
      Utf8LengthAscii(s[1..]);
    }
  }

  /** The bytes of an ASCII text (a Rust byte-string literal). */
  function AsciiBytes(s: string): (b: seq<nat>)
    requires forall i :: 0 <= i < |s| ==> s[i] as int < 0x80
    ensures |b| == |s|
    ensures forall i :: 0 <= i < |s| ==> b[i] == s[i] as int && b[i] < 0x80
  {
    seq(|s|, i requires 0 <= i < |s| => s[i] as int)
  }
}
