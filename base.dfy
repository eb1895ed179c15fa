/** Option, the usual Some/None wrapper: `None` stands for the NULL handles and
    failed conversions of the C code. */
module Wrappers {
  datatype Option<+T> = None | Some(value: T)
}

/** The C-level facts the adapter relies on: the range of `int`, and C strings
    (which end at the first NUL character). Throughout the model one element
    of a `string` stands for one C `char`, that is one byte of the name:
    lengths, such as strlen's and snprintf's size, count bytes, and no
    encoding is interpreted. */
module CTypes {
  const INT_MIN: int := -0x8000_0000
  const INT_MAX: int := 0x7fff_ffff

  predicate IsInt(n: int) { INT_MIN <= n <= INT_MAX }

  /** A Dafny string, one element per byte, is a C string's contents when it
      has no NUL byte inside. */
  predicate NoNul(s: string) { '\0' !in s }

  /** What `strlen` sees in a byte buffer: everything before the first NUL; its
      length is strlen's result, a count of bytes. */
  function UpToNul(buf: seq<char>): (r: string)
    ensures NoNul(r) && |r| <= |buf| && r == buf[..|r|]
    ensures |r| < |buf| ==> buf[|r|] == '\0'
  {
    if |buf| == 0 || buf[0] == '\0' then [] else [buf[0]] + UpToNul(buf[1..])
  }

  /** A terminator written right after a NUL-free text ends the string there. */
  lemma {:induction false} UpToNulAfter(p: string, rest: seq<char>)
    requires NoNul(p)
    ensures UpToNul(p + ['\0'] + rest) == p
  {
    if |p| > 0 {
      assert (p + ['\0'] + rest)[1..] == p[1..] + ['\0'] + rest;
      UpToNulAfter(p[1..], rest);
    }
  }
}
