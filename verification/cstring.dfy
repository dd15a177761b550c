/**
 The byte buffers of the client and the three C string routines it applies
 to them (`strncpy`, `strncmp`, `strcat`), modelled with their NUL semantics.
 */
module CString {

  /** One `char` of a buffer: an 8-bit value. */
  type Byte = c: char | c as int < 256

  /** The string terminator. */
  const NUL: Byte := '\0'

  predicate NoNul(s: seq<Byte>) {
    forall i :: 0 <= i < |s| ==> s[i] != NUL
  }

  /** `n` NUL bytes. */
  function Zeros(n: nat): (r: seq<Byte>)
    ensures |r| == n
    ensures forall i :: 0 <= i < n ==> r[i] == NUL
  {
    seq(n, _ => NUL)
  }

  /** The C string a buffer holds: its bytes before the first NUL, or all of
      them when there is none. */
  function CStr(a: seq<Byte>): (r: seq<Byte>)
    ensures |r| <= |a| && r == a[..|r|]
    ensures NoNul(r)
    ensures |r| < |a| ==> a[|r|] == NUL
    ensures NoNul(a) ==> r == a
  {
    if |a| == 0 || a[0] == NUL then [] else [a[0]] + CStr(a[1..])
  }

  /** `strncpy(dst, src, n)`: the `n` bytes written to `dst`. Bytes of `src`
      are copied up to its first NUL; the remainder is filled with NUL. */
  function StrNCpy(src: seq<Byte>, n: nat): (r: seq<Byte>)
    requires n <= |src|
    ensures |r| == n
    ensures CStr(r) == CStr(src[..n])
    ensures NoNul(src[..n]) ==> r == src[..n]
  {
    if n == 0 then []
    else if src[0] == NUL then Zeros(n)
    else
      var rest := StrNCpy(src[1..], n - 1);
      assert src[1..][..n - 1] == src[..n][1..];
      [src[0]] + rest
  }

  /** `strncmp(a, b, n) == 0`: the bytes are compared in order and the
      comparison stops at the first difference, at a NUL in both, or after `n`. */
  function StrNCmpEq(a: seq<Byte>, b: seq<Byte>, n: nat): (r: bool)
    requires n <= |a| && n <= |b|
    ensures r <==> CStr(a[..n]) == CStr(b[..n])
  {
    if n == 0 then true
    else if a[0] != b[0] then
      assert CStr(a[..n]) != CStr(b[..n]) by {
        if a[0] != NUL && b[0] != NUL {
          assert CStr(a[..n])[0] == a[0];
        }
      }
      false
    else if a[0] == NUL then true
    else
      var r := StrNCmpEq(a[1..], b[1..], n - 1);
      assert a[1..][..n - 1] == a[..n][1..];
      assert b[1..][..n - 1] == b[..n][1..];
      assert CStr(a[..n]) == [a[0]] + CStr(a[1..][..n - 1]);
      assert CStr(b[..n]) == [b[0]] + CStr(b[1..][..n - 1]);
      r
  }

  /** Comparing against a NUL-free literal, `strncmp` is plain byte equality
      of the first `n` bytes, whatever bytes (NUL included) the buffer holds. */
  lemma StrNCmpAgainstLiteral(a: seq<Byte>, lit: seq<Byte>, n: nat)
    requires n <= |a| && n == |lit| && NoNul(lit)
    ensures StrNCmpEq(a, lit, n) <==> a[..n] == lit
  {
    assert lit[..n] == lit;
    if CStr(a[..n]) == lit {
      assert a[..n] == CStr(a[..n]);
    }
  }

  /** `strcat` of `src` onto the C string held in `dst`: the C string of the
      result. */
  function StrCat(dst: seq<Byte>, src: seq<Byte>): (r: seq<Byte>)
    ensures NoNul(r)
    ensures |r| <= |dst| + |src|
    ensures NoNul(dst) && NoNul(src) ==> r == dst + src
  {
    CStr(dst) + CStr(src)
  }
}
