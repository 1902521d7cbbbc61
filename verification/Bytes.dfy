/** Bytes, big- and little-endian integers and C strings, shared by the codecs. */
module Bytes {

  datatype Option<+T> = None | Some(value: T)

  type byte = b: int | 0 <= b < 256

  const BACKSLASH: byte := 0x5C

  type u16 = n: int | 0 <= n < 0x1_0000
  type u32 = n: int | 0 <= n < 0x1_0000_0000
  type u64 = n: int | 0 <= n < 0x1_0000_0000_0000_0000

  function Min(a: nat, b: nat): (m: nat) { if a < b then a else b }

  /** The value of `s` read as a big-endian number. */
  function BeValue(s: seq<byte>): (n: nat)
  {
    if s == [] then 0 else 256 * BeValue(s[..|s| - 1]) + s[|s| - 1]
  }

  /** The `width` low bytes of `n`, most significant first. */
  function BeBytes(n: nat, width: nat): (s: seq<byte>)
    ensures |s| == width
  {
    if width == 0 then [] else BeBytes(n / 256, width - 1) + [n % 256]
  }

  function Pow256(k: nat): (p: nat)
    ensures p >= 1
  {
    if k == 0 then 1 else 256 * Pow256(k - 1)
  }

  /** Decoding undoes encoding for every number that fits in `width` bytes. */
  lemma {:induction false} BeRoundTrip(n: nat, width: nat)
    requires n < Pow256(width)
    ensures BeValue(BeBytes(n, width)) == n
  {
    if width > 0 {
      BeRoundTrip(n / 256, width - 1);
      assert BeBytes(n, width)[..width - 1] == BeBytes(n / 256, width - 1);
    }
  }

  /** Encoding undoes decoding, so equal numbers come only from equal bytes. */
  lemma {:induction false} BeInverse(s: seq<byte>)
    ensures BeValue(s) < Pow256(|s|)
    ensures BeBytes(BeValue(s), |s|) == s
  {
    if s != [] {
      var rest := s[..|s| - 1];
      BeInverse(rest);
      assert BeValue(s) / 256 == BeValue(rest) && BeValue(s) % 256 == s[|s| - 1];
      assert s == rest + [s[|s| - 1]];
    }
  }

  /** The value of `s` read as a little-endian number. */
  function LeValue(s: seq<byte>): (n: nat)
    decreases |s|
  {
    if s == [] then 0 else s[0] + 256 * LeValue(s[1..])
  }

  /** The `width` low bytes of `n`, least significant first. */
  function LeBytes(n: nat, width: nat): (s: seq<byte>)
    ensures |s| == width
    decreases n, width
  {
    if width == 0 then [] else [n % 256] + LeBytes(n / 256, width - 1)
  }

  lemma {:induction false} LeRoundTrip(n: nat, width: nat)
    requires n < Pow256(width)
    ensures LeValue(LeBytes(n, width)) == n
  {
    if width > 0 {
      LeRoundTrip(n / 256, width - 1);
      assert LeBytes(n, width)[1..] == LeBytes(n / 256, width - 1);
    }
  }

  /** The part of `s` before its first NUL: what a C reader of the buffer sees. */
  function CString(s: seq<byte>): (t: seq<byte>)
    ensures t <= s && 0 !in t
    ensures |t| < |s| ==> s[|t|] == 0
  {
    if s == [] || s[0] == 0 then [] else [s[0]] + CString(s[1..])
  }

  lemma {:induction false} CStringOfNulFree(s: seq<byte>, tail: seq<byte>)
    requires 0 !in s
    ensures CString(s) == s
    ensures CString(s + [0] + tail) == s
  {
    if s == [] {
      assert (s + [0] + tail)[0] == 0;
    } else {
      CStringOfNulFree(s[1..], tail);
      assert (s + [0] + tail)[1..] == s[1..] + [0] + tail;
    }
  }

  /** A string literal of the program. */
  function Ascii(s: string): (t: seq<byte>)
    requires forall i :: 0 <= i < |s| ==> s[i] < 128 as char
    ensures |t| == |s| && forall i :: 0 <= i < |s| ==> t[i] == s[i] as int
  {
    seq(|s|, i requires 0 <= i < |s| => s[i] as int)
  }
}
