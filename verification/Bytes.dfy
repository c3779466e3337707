/** Bytes and the fixed-width integers packed out of them. */
module Bytes {

  type byte = x: int | 0 <= x < 256

  datatype Option<+T> = None | Some(value: T)

  function Min(a: int, b: int): int {
    if a <= b then a else b
  }

  function Max(a: int, b: int): int {
    if a >= b then a else b
  }

  /** Big-endian fields, as a Cinepak frame carries them. */
  function Be16(hi: byte, lo: byte): (n: nat)
    ensures n < 0x1_0000
  {
    hi * 256 + lo
  }

  function Be24(b0: byte, b1: byte, b2: byte): (n: nat)
    ensures n < 0x100_0000
  {
    b0 * 65536 + b1 * 256 + b2
  }

  function Be32(b0: byte, b1: byte, b2: byte, b3: byte): (n: nat)
    ensures n < 0x1_0000_0000
  {
    b0 * 16777216 + b1 * 65536 + b2 * 256 + b3
  }

  /** Little-endian fields, as everything on the PC side packs them. */
  function Le16(n: nat): (s: seq<byte>)
    requires n < 0x1_0000
    ensures |s| == 2
  {
    [n % 256, n / 256]
  }

  function Le32(n: nat): (s: seq<byte>)
    requires n < 0x1_0000_0000
    ensures |s| == 4
  {
    [n % 256, n / 256 % 256, n / 65536 % 256, n / 16777216]
  }

  function ReadLe16(s: seq<byte>, i: nat): (n: nat)
    requires i + 2 <= |s|
    ensures n < 0x1_0000
  {
    var lo: nat, hi: nat := s[i], s[i + 1];
    lo + hi * 256
  }

  function ReadLe32(s: seq<byte>, i: nat): (n: nat)
    requires i + 4 <= |s|
    ensures n < 0x1_0000_0000
  {
    var b0: nat, b1: nat, b2: nat, b3: nat := s[i], s[i + 1], s[i + 2], s[i + 3];
    b0 + b1 * 256 + b2 * 65536 + b3 * 16777216
  }

  lemma Le16Back(s: seq<byte>, i: nat, n: nat)
    requires n < 0x1_0000 && i + 2 <= |s| && s[i..i + 2] == Le16(n)
    ensures ReadLe16(s, i) == n
  {
    assert s[i] == s[i..i + 2][0] && s[i + 1] == s[i..i + 2][1];
  }

  lemma Le32Back(s: seq<byte>, i: nat, n: nat)
    requires n < 0x1_0000_0000 && i + 4 <= |s| && s[i..i + 4] == Le32(n)
    ensures ReadLe32(s, i) == n
  {
    assert s[i] == s[i..i + 4][0] && s[i + 1] == s[i..i + 4][1];
    assert s[i + 2] == s[i..i + 4][2] && s[i + 3] == s[i..i + 4][3];
    assert n / 256 == n / 65536 * 256 + n / 256 % 256;
    assert n / 65536 == n / 16777216 * 256 + n / 65536 % 256;
  }

  // ---------------------------------------------------------------- bytes at a place

  ghost predicate HeldAt(f: seq<byte>, p: nat, s: seq<byte>) {
    p + |s| <= |f| && f[p..p + |s|] == s
  }

  /** What stands at a place, its parts stand at theirs. */
  lemma Parts(f: seq<byte>, p: nat, s: seq<byte>, t: seq<byte>)
    requires HeldAt(f, p, s + t)
    ensures HeldAt(f, p, s) && HeldAt(f, p + |s|, t)
  {
    assert f[p..p + |s|] == f[p..p + |s + t|][..|s|];
    assert f[p + |s|..p + |s| + |t|] == f[p..p + |s + t|][|s|..];
  }

  /** A piece of a piece is a piece. */
  lemma SubSlice(buf: seq<byte>, first: nat, end: nat, o: nat, n: nat)
    requires first <= end <= |buf| && first + o + n <= end
    ensures buf[first + o..first + o + n] == buf[first..end][o..o + n]
  {
    var part, whole := buf[first..end][o..o + n], buf[first + o..first + o + n];
    assert forall i :: 0 <= i < n ==> part[i] == buf[first + o + i] == whole[i];
  }
}
