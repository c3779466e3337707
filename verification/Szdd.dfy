/**
 SZDD expansion. Copies are said by where they lie in a 4096-byte ring; what they mean is a plain
 LZ77 copy from so many bytes back, with 4096 spaces in front of the output.
 */
module Szdd {
  import opened Arith
  import opened Bytes

  const WINDOW: nat := 4096
  const START: nat := 4096 - 16
  const SPACE: byte := 0x20
  const MAGIC: seq<byte> := [0x53, 0x5A, 0x44, 0x44, 0x88, 0xF0, 0x27, 0x33]

  // ---------------------------------------------------------------- what tokens mean

  datatype Token = Literal(c: byte) | Match(dist: nat, len: nat)

  predicate Legal(t: Token) {
    t.Match? ==> 1 <= t.dist <= WINDOW && 3 <= t.len <= 18
  }

  /** The byte so many places back from the end; before the first there are spaces. */
  function Back(out: seq<byte>, dist: nat): byte
    requires dist >= 1
  {
    if dist <= |out| then out[|out| - dist] else SPACE
  }

  /** A copy byte by byte, so that it may run into what it has just written. */
  function Copy(out: seq<byte>, dist: nat, len: nat): (r: seq<byte>)
    requires dist >= 1
    ensures out <= r && |r| == |out| + len
    decreases len
  {
    if len == 0 then out else Copy(out + [Back(out, dist)], dist, len - 1)
  }

  function Append(out: seq<byte>, t: Token): (r: seq<byte>)
    requires Legal(t)
    ensures out <= r && |r| > |out|
  {
    match t
    case Literal(c) => out + [c]
    case Match(dist, len) => Copy(out, dist, len)
  }

  function Meaning(tokens: seq<Token>, out: seq<byte>): (r: seq<byte>)
    requires forall t :: t in tokens ==> Legal(t)
    ensures out <= r
  {
    if tokens == [] then out else Meaning(tokens[1..], Append(out, tokens[0]))
  }

  /** A copy of a whole run repeats the last `dist` bytes for as long as it lasts. */
  lemma {:induction false} CopyRepeats(out: seq<byte>, dist: nat, len: nat, k: nat)
    requires 1 <= dist <= |out| && k < len
    ensures Copy(out, dist, len)[|out| + k] == out[|out| - dist + k % dist]
    decreases len
  {
    var next := out + [Back(out, dist)];
    if k == 0 {
      assert next <= Copy(out, dist, len);
    } else {
      CopyRepeats(next, dist, len - 1, k - 1);
      ModNext(k, dist);
    }
  }

  // ---------------------------------------------------------------- the ring

  function RingPos(n: nat): (p: nat)
    ensures p < WINDOW
  {
    (START + n) % WINDOW
  }

  /** How far back a place in the ring is when the next byte goes to `pos`. */
  function DistOf(pos: nat, off: nat): nat
    requires pos < WINDOW && off < WINDOW
  {
    if off < pos then pos - off else pos + WINDOW - off
  }

  /** The ring holds the last 4096 bytes of the spaces and the output. */
  ghost predicate RingHolds(win: seq<byte>, out: seq<byte>) {
    && |win| == WINDOW
    && forall off :: 0 <= off < WINDOW ==> win[off] == Back(out, DistOf(RingPos(|out|), off))
  }

  function Succ(pos: nat): nat { (pos + 1) % WINDOW }

  lemma RingStep(win: seq<byte>, out: seq<byte>, c: byte)
    requires RingHolds(win, out)
    ensures RingHolds(win[RingPos(|out|) := c], out + [c]) && RingPos(|out| + 1) == Succ(RingPos(|out|))
  {
    var pos := RingPos(|out|);
    assert RingPos(|out| + 1) == Succ(pos);
    hide RingPos;
    forall off | 0 <= off < WINDOW
      ensures win[pos := c][off] == Back(out + [c], DistOf(Succ(pos), off))
    {
      if off != pos { assert DistOf(Succ(pos), off) == DistOf(pos, off) + 1; }
    }
  }

  // ---------------------------------------------------------------- what a file means

  datatype Expanded = Expanded(bytes: seq<byte>, lastChar: byte) | NotSzdd | Truncated

  /** The position reached and the output so far, or a file that ends inside a copy. */
  datatype Progress = At(i: nat, out: seq<byte>) | Cut

  function MatchAt(lo: byte, hi: byte, n: nat): Token {
    Match(DistOf(RingPos(n), lo + hi / 16 * 256), hi % 16 + 3)
  }

  /** One token: a byte as it is, or two that say where to copy from. */
  function One(data: seq<byte>, i: nat, literal: bool, out: seq<byte>): (p: Progress)
    requires i < |data|
    ensures p.At? ==> i < p.i
  {
    if literal then At(i + 1, Append(out, Literal(data[i])))
    else if i + 1 >= |data| then Cut
    else At(i + 2, Append(out, MatchAt(data[i], data[i + 1], |out|)))
  }

  /** Up to `n` more tokens of a group, kinds taken from the low bit of `ctrl` up. */
  function Group(data: seq<byte>, i: nat, ctrl: nat, n: nat, out: seq<byte>): (p: Progress)
    ensures p.At? ==> i <= p.i
    decreases n
  {
    if n == 0 || i >= |data| then At(i, out)
    else
      match One(data, i, ctrl % 2 == 1, out)
      case Cut => Cut
      case At(i', out') => Group(data, i', ctrl / 2, n - 1, out')
  }

  function Groups(data: seq<byte>, i: nat, out: seq<byte>, size: nat): Progress
    decreases |data| - i
  {
    if i >= |data| || |out| >= size then At(i, out)
    else
      match Group(data, i + 1, data[i], 8, out)
      case Cut => Cut
      case At(i', out') => Groups(data, i', out', size)
  }

  function SizeAt(data: seq<byte>): nat {
    LittleEndian(data[Min(10, |data|)..Min(14, |data|)])
  }

  function LittleEndian(s: seq<byte>): nat {
    if s == [] then 0 else s[0] + 256 * LittleEndian(s[1..])
  }

  function Expand(data: seq<byte>): Expanded {
    if !(MAGIC <= data) then NotSzdd
    else if |data| < 10 then Truncated
    else
      match Groups(data, 14, [], SizeAt(data))
      case Cut => Truncated
      case At(_, out) => Expanded(out[..Min(|out|, SizeAt(data))], data[9])
  }

  // ---------------------------------------------------------------- the expander

  const BIT: seq<nat> := [1, 2, 4, 8, 16, 32, 64, 128]

  lemma NextBit(ctrl: byte, b: nat)
    requires b < 7
    ensures ctrl / BIT[b] / 2 == ctrl / BIT[b + 1]
  {
    if b == 0 { } else if b == 1 { } else if b == 2 { } else if b == 3 { } else if b == 4 { } else if b == 5 { }
    else { }
  }

  method ReadSize(data: seq<byte>) returns (n: nat)
    ensures n == SizeAt(data)
  {
    var s := data[Min(10, |data|)..Min(14, |data|)];
    n := 0;
    var k := |s|;
    while k > 0
      invariant 0 <= k <= |s| && n == LittleEndian(s[k..])
    {
      k := k - 1;
      n := s[k] + 256 * n;
    }
    assert s[0..] == s;
  }

  /** One byte of output: it goes into the ring as well. */
  method Put(win: array<byte>, out: seq<byte>, pos: nat, c: byte) returns (out': seq<byte>, pos': nat)
    requires RingHolds(win[..], out) && pos == RingPos(|out|)
    modifies win
    ensures out' == out + [c] && RingHolds(win[..], out') && pos' == RingPos(|out'|)
  {
    RingStep(win[..], out, c);
    win[pos] := c;
    out' := out + [c];
    pos' := (pos + 1) % WINDOW;
  }

  method PutMatch(win: array<byte>, out: seq<byte>, pos: nat, off0: nat, ln: nat) returns (out': seq<byte>, pos': nat)
    requires RingHolds(win[..], out) && pos == RingPos(|out|) && off0 < WINDOW
    modifies win
    ensures out' == Copy(out, DistOf(pos, off0), ln)
    ensures RingHolds(win[..], out') && pos' == RingPos(|out'|)
  {
    hide RingHolds, RingPos;
    ghost var dist := DistOf(pos, off0);
    ghost var goal := Copy(out, dist, ln);
    var off: nat, k := off0, 0;
    out', pos' := out, pos;
    while k < ln
      invariant 0 <= k <= ln && off < WINDOW
      invariant RingHolds(win[..], out') && pos' == RingPos(|out'|) && pos' < WINDOW
      invariant DistOf(pos', off) == dist && Copy(out', dist, ln - k) == goal
    {
      RingAt(win[..], out', off);
      var c := win[off];
      DistKept(pos', off);
      RingNext(|out'|);
      off := (off + 1) % WINDOW;
      out', pos' := Put(win, out', pos', c);
      k := k + 1;
    }
  }

  lemma RingAt(win: seq<byte>, out: seq<byte>, off: nat)
    requires RingHolds(win, out) && off < WINDOW
    ensures |win| == WINDOW && RingPos(|out|) < WINDOW && win[off] == Back(out, DistOf(RingPos(|out|), off))
  {}

  lemma RingNext(n: nat)
    ensures RingPos(n) < WINDOW && RingPos(n + 1) == Succ(RingPos(n))
  {}

  lemma DistKept(pos: nat, off: nat)
    requires pos < WINDOW && off < WINDOW
    ensures DistOf(Succ(pos), Succ(off)) == DistOf(pos, off)
  {}

  method ExpandOne(data: seq<byte>, i: nat, literal: bool, win: array<byte>, out: seq<byte>, pos: nat)
    returns (ok: bool, i': nat, out': seq<byte>, pos': nat)
    requires i < |data| && RingHolds(win[..], out) && pos == RingPos(|out|)
    modifies win
    ensures One(data, i, literal, out) == if ok then At(i', out') else Cut
    ensures ok ==> RingHolds(win[..], out') && pos' == RingPos(|out'|)
  {
    hide RingHolds, RingPos;
    ok, i', out', pos' := true, i, out, pos;
    if literal {
      i' := i + 1;
      out', pos' := Put(win, out, pos, data[i]);
    } else if i + 1 >= |data| {
      ok := false;
    } else {
      var lo: nat, hi: nat := data[i], data[i + 1];
      i' := i + 2;
      out', pos' := PutMatch(win, out, pos, lo + hi / 16 * 256, hi % 16 + 3);
    }
  }

  method ExpandGroup(data: seq<byte>, i: nat, ctrl: byte, win: array<byte>, out: seq<byte>, pos: nat)
    returns (ok: bool, i': nat, out': seq<byte>, pos': nat)
    requires RingHolds(win[..], out) && pos == RingPos(|out|)
    modifies win
    ensures Group(data, i, ctrl, 8, out) == if ok then At(i', out') else Cut
    ensures ok ==> RingHolds(win[..], out') && pos' == RingPos(|out'|)
  {
    hide RingHolds, RingPos, One;
    ghost var goal := Group(data, i, ctrl, 8, out);
    ok, i', out', pos' := true, i, out, pos;
    var b := 0;
    ghost var rest: nat := ctrl;
    while b < 8
      invariant 0 <= b <= 8 && RingHolds(win[..], out') && pos' == RingPos(|out'|)
      invariant Group(data, i', rest, 8 - b, out') == goal
      invariant b < 8 ==> rest == ctrl / BIT[b]
      invariant ok
    {
      if i' >= |data| { break; }
      ok, i', out', pos' := ExpandOne(data, i', ctrl / BIT[b] % 2 == 1, win, out', pos');
      if !ok { return; }
      if b < 7 { NextBit(ctrl, b); }
      rest := rest / 2;
      b := b + 1;
    }
  }

  method ExpandFile(data: seq<byte>) returns (r: Expanded)
    ensures r == Expand(data)
  {
    hide RingHolds, RingPos, Group;
    if !(MAGIC <= data) { return NotSzdd; }
    if |data| < 10 { return Truncated; }
    var size := ReadSize(data);
    var win := new byte[WINDOW](_ => SPACE);
    var out, pos, i := [], START, 14;
    FreshRing(win[..]);
    while i < |data| && |out| < size
      invariant fresh(win) && RingHolds(win[..], out) && pos == RingPos(|out|)
      invariant Groups(data, i, out, size) == Groups(data, 14, [], size)
      decreases |data| - i
    {
      var ctrl := data[i];
      var ok;
      ghost var here := i;
      ok, i, out, pos := ExpandGroup(data, i + 1, ctrl, win, out, pos);
      if !ok { return Truncated; }
      GroupAdvances(data, here + 1, ctrl, i, out);
    }
    r := Expanded(out[..Min(|out|, size)], data[9]);
  }

  lemma GroupAdvances(data: seq<byte>, i: nat, ctrl: nat, i': nat, out': seq<byte>)
    ensures forall out :: Group(data, i, ctrl, 8, out) == At(i', out') ==> i <= i'
  {}

  lemma FreshRing(win: seq<byte>)
    requires |win| == WINDOW && forall k :: 0 <= k < WINDOW ==> win[k] == SPACE
    ensures RingHolds(win, []) && RingPos(0) == START
  {}

  // ---------------------------------------------------------------- the other way

  /** Where in the ring a byte that far back lies. */
  function OffOf(pos: nat, dist: nat): (off: nat)
    requires pos < WINDOW && 1 <= dist <= WINDOW
    ensures off < WINDOW && DistOf(pos, off) == dist
  {
    if dist <= pos then pos - dist else pos + WINDOW - dist
  }

  function Encode(t: Token, n: nat): (s: seq<byte>)
    requires Legal(t)
    ensures 1 <= |s| <= 2
  {
    match t
    case Literal(c) => [c]
    case Match(dist, len) =>
      var off := OffOf(RingPos(n), dist);
      [off % 256, off / 256 * 16 + (len - 3)]
  }

  lemma OneBack(data: seq<byte>, i: nat, t: Token, out: seq<byte>)
    requires Legal(t) && i < |data| && Encode(t, |out|) <= data[i..]
    ensures One(data, i, t.Literal?, out) == At(i + |Encode(t, |out|)|, Append(out, t))
  {
    hide RingPos, Append;
    var code := Encode(t, |out|);
    assert data[i] == code[0];
    if t.Match? {
      assert data[i + 1] == code[1];
      var off := OffOf(RingPos(|out|), t.dist);
      Nibbles(off / 256, t.len - 3);
      assert off % 256 + off / 256 * 256 == off;
    }
  }

  lemma Nibbles(hi: nat, lo: nat)
    requires lo < 16
    ensures (hi * 16 + lo) / 16 == hi && (hi * 16 + lo) % 16 == lo
  {}

  /** The kinds of up to eight tokens, the first in the low bit. */
  function Kinds(ts: seq<Token>): nat {
    if ts == [] then 0 else (if ts[0].Literal? then 1 else 0) + 2 * Kinds(ts[1..])
  }

  function Pow2(n: nat): nat { if n == 0 then 1 else 2 * Pow2(n - 1) }

  lemma {:induction false} KindsFit(ts: seq<Token>)
    ensures Kinds(ts) < Pow2(|ts|)
  {
    if ts != [] { KindsFit(ts[1..]); }
  }

  lemma {:induction false} EightBits(n: nat)
    requires n <= 8
    ensures Pow2(n) <= 256
    decreases 8 - n
  {
    if n < 8 {
      EightBits(n + 1);
    } else {
      assert Pow2(4) == 16;
    }
  }

  function Codes(ts: seq<Token>, out: seq<byte>): seq<byte>
    requires forall t :: t in ts ==> Legal(t)
  {
    if ts == [] then [] else Encode(ts[0], |out|) + Codes(ts[1..], Append(out, ts[0]))
  }

  lemma {:induction false} GroupBack(data: seq<byte>, i: nat, ts: seq<Token>, n: nat, out: seq<byte>, post: seq<byte>)
    requires forall t :: t in ts ==> Legal(t)
    requires i <= |data| && data[i..] == Codes(ts, out) + post
    requires |ts| <= n && (|ts| == n || post == [])
    ensures Group(data, i, Kinds(ts), n, out) == At(i + |Codes(ts, out)|, Meaning(ts, out))
    decreases |ts|
  {
    hide One, Encode, Append;
    if ts != [] {
      var code, next := Encode(ts[0], |out|), Append(out, ts[0]);
      OneBack(data, i, ts[0], out);
      DropHead(data, i, code, Codes(ts[1..], next) + post);
      assert Codes(ts, out) + post == code + (Codes(ts[1..], next) + post);
      LowBit(if ts[0].Literal? then 1 else 0, Kinds(ts[1..]));
      GroupBack(data, i + |code|, ts[1..], n - 1, next, post);
    }
  }

  lemma DropHead(data: seq<byte>, i: nat, head: seq<byte>, tail: seq<byte>)
    requires i <= |data| && data[i..] == head + tail
    ensures i + |head| <= |data| && data[i + |head|..] == tail
  {
    assert data[i..][|head|..] == tail;
  }

  lemma LowBit(b: nat, n: nat)
    requires b < 2
    ensures (b + 2 * n) % 2 == b && (b + 2 * n) / 2 == n
  {}

  function FirstGroup(tokens: seq<Token>): (g: seq<Token>)
    ensures |g| <= 8 && g <= tokens && (tokens != [] ==> g != [])
    ensures |g| == 8 || g == tokens
  {
    tokens[..Min(8, |tokens|)]
  }

  /** Groups of eight tokens, a byte of kinds before each. */
  function Serial(tokens: seq<Token>, out: seq<byte>): seq<byte>
    requires forall t :: t in tokens ==> Legal(t)
    decreases |tokens|
  {
    if tokens == [] then []
    else
      var g := FirstGroup(tokens);
      KindsFit(g);
      EightBits(|g|);
      [Kinds(g)] + Codes(g, out) + Serial(tokens[|g|..], Meaning(g, out))
  }

  lemma {:induction false} MeaningSplit(tokens: seq<Token>, k: nat, out: seq<byte>)
    requires k <= |tokens| && forall t :: t in tokens ==> Legal(t)
    ensures Meaning(tokens, out) == Meaning(tokens[k..], Meaning(tokens[..k], out))
    decreases k
  {
    if k > 0 {
      assert tokens[1..][k - 1..] == tokens[k..] && tokens[..k][1..] == tokens[1..][..k - 1];
      MeaningSplit(tokens[1..], k - 1, Append(out, tokens[0]));
    } else {
      assert tokens[0..] == tokens;
    }
  }

  lemma {:induction false} GroupsBack(data: seq<byte>, i: nat, tokens: seq<Token>, out: seq<byte>, size: nat)
    requires forall t :: t in tokens ==> Legal(t)
    requires i <= |data| && data[i..] == Serial(tokens, out) && size == |Meaning(tokens, out)|
    ensures Groups(data, i, out, size) == At(|data|, Meaning(tokens, out))
    decreases |tokens|
  {
    hide Group, Codes, Kinds, Append;
    if tokens != [] {
      var g := FirstGroup(tokens);
      var rest, next := tokens[|g|..], Meaning(g, out);
      MeaningSplit(tokens, |g|, out);
      Grows(tokens, out);
      var codes, tail := Codes(g, out), Serial(rest, next);
      assert data[i..] == [data[i]] + (codes + tail);
      assert data[i] == Kinds(g);
      DropHead(data, i, [data[i]], codes + tail);
      GroupBack(data, i + 1, g, 8, out, tail);
      DropHead(data, i + 1, codes, tail);
      GroupsBack(data, i + 1 + |codes|, rest, next, size);
    }
  }

  lemma Grows(tokens: seq<Token>, out: seq<byte>)
    requires tokens != [] && forall t :: t in tokens ==> Legal(t)
    ensures |Meaning(tokens, out)| > |out|
  {
    assert Append(out, tokens[0]) <= Meaning(tokens, out);
  }

  lemma SizeBack(n: nat)
    requires n < 0x1_0000_0000
    ensures LittleEndian(Le32(n)) == n
  {
    var s := Le32(n);
    assert s[1..][1..] == s[2..] && s[2..][1..] == s[3..] && s[3..][1..] == [];
    assert LittleEndian(s[3..]) == n / 16777216;
    assert LittleEndian(s[2..]) == n / 65536;
    assert LittleEndian(s[1..]) == n / 256;
  }

  function File(mode: byte, lastChar: byte, tokens: seq<Token>): seq<byte>
    requires forall t :: t in tokens ==> Legal(t)
    requires |Meaning(tokens, [])| < 0x1_0000_0000
  {
    MAGIC + [mode, lastChar] + Le32(|Meaning(tokens, [])|) + Serial(tokens, [])
  }

  /** Expanding the serialisation of any legal tokens gives their meaning back. */
  lemma FileBack(mode: byte, lastChar: byte, tokens: seq<Token>)
    requires forall t :: t in tokens ==> Legal(t)
    requires |Meaning(tokens, [])| < 0x1_0000_0000
    ensures Expand(File(mode, lastChar, tokens)) == Expanded(Meaning(tokens, []), lastChar)
  {
    hide Meaning, Serial, Groups, Le32, LittleEndian;
    var data, bytes := File(mode, lastChar, tokens), Meaning(tokens, []);
    var head := MAGIC + [mode, lastChar];
    assert |head| == 10 && data == head + Le32(|bytes|) + Serial(tokens, []);
    assert data[10..14] == Le32(|bytes|);
    assert data[14..] == Serial(tokens, []);
    assert data[..8] == MAGIC && data[9] == lastChar;
    SizeBack(|bytes|);
    GroupsBack(data, 14, tokens, [], |bytes|);
    assert bytes[..|bytes|] == bytes;
  }

  // ---------------------------------------------------------------- in numbers

  /** Every byte of a copy is the one so many places before it, be that of the output or of the copy itself;
      in front of the output there are spaces. */
  lemma {:induction false} CopyIs(out: seq<byte>, dist: nat, len: nat, k: nat)
    requires dist >= 1 && k < len
    ensures var r := Copy(out, dist, len);
      r[|out| + k] == if dist <= |out| + k then r[|out| + k - dist] else 32
    decreases len
  {
    var next := out + [Back(out, dist)];
    assert next <= Copy(out, dist, len);
    if k > 0 {
      CopyIs(next, dist, len - 1, k - 1);
    }
  }

  /** Two bytes are twelve bits of a place in the ring and four of a length. The ring's first byte went to
      place 4080, so `n` bytes on a place is that far back. */
  lemma MatchIs(lo: byte, hi: byte, n: nat)
    ensures MatchAt(lo, hi, n) == Match((n + 4079 - (lo + hi / 16 * 256)) % 4096 + 1, hi % 16 + 3)
  {}

  /** A header said in full: the magic, two bytes, and a size of four bytes, least first. */
  function Headed(mode: byte, lastChar: byte, s0: byte, s1: byte, s2: byte, s3: byte): (h: seq<byte>)
    ensures |h| == 14
  {
    [0x53, 0x5A, 0x44, 0x44, 0x88, 0xF0, 0x27, 0x33, mode, lastChar, s0, s1, s2, s3]
  }

  lemma HeadedSize(mode: byte, lastChar: byte, s0: byte, s1: byte, s2: byte, s3: byte, rest: seq<byte>)
    ensures var data := Headed(mode, lastChar, s0, s1, s2, s3) + rest;
      SizeAt(data) == s0 + 256 * s1 + 65536 * s2 + 16777216 * s3
  {
    hide LittleEndian;
    var data := Headed(mode, lastChar, s0, s1, s2, s3) + rest;
    assert data[10..14] == [s0, s1, s2, s3];
    FourBytes(s0, s1, s2, s3);
  }

  lemma FourBytes(s0: byte, s1: byte, s2: byte, s3: byte)
    ensures LittleEndian([s0, s1, s2, s3]) == s0 + 256 * s1 + 65536 * s2 + 16777216 * s3
  {
    assert [s3][1..] == [] && LittleEndian([s3]) == s3;
    assert [s2, s3][1..] == [s3] && LittleEndian([s2, s3]) == s2 + 256 * s3;
    assert [s1, s2, s3][1..] == [s2, s3] && LittleEndian([s1, s2, s3]) == s1 + 256 * (s2 + 256 * s3);
    assert [s0, s1, s2, s3][1..] == [s1, s2, s3];
  }

  /** What follows such a header, expanded. */
  lemma HeadedExpands(mode: byte, lastChar: byte, size: byte, rest: seq<byte>, i: nat, out: seq<byte>)
    requires var data := Headed(mode, lastChar, size, 0, 0, 0) + rest;
      Groups(data, 14, [], size) == At(i, out)
    ensures Expand(Headed(mode, lastChar, size, 0, 0, 0) + rest) == Expanded(out[..Min(|out|, size)], lastChar)
  {
    hide Groups, SizeAt;
    var data := Headed(mode, lastChar, size, 0, 0, 0) + rest;
    HeadedSize(mode, lastChar, size, 0, 0, 0, rest);
    assert data[..8] == MAGIC && data[9] == lastChar;
  }

  lemma LiteralStep(data: seq<byte>, i: nat, ctrl: nat, n: nat, out: seq<byte>)
    requires n > 0 && i < |data| && ctrl % 2 == 1
    ensures Group(data, i, ctrl, n, out) == Group(data, i + 1, ctrl / 2, n - 1, out + [data[i]])
  {}

  lemma MatchStep(data: seq<byte>, i: nat, ctrl: nat, n: nat, out: seq<byte>)
    requires n > 0 && i + 1 < |data| && ctrl % 2 == 0
    ensures Group(data, i, ctrl, n, out)
         == Group(data, i + 2, ctrl / 2, n - 1, Append(out, MatchAt(data[i], data[i + 1], |out|)))
  {
    hide MatchAt, Append;
  }

  lemma EndStep(data: seq<byte>, ctrl: nat, n: nat, out: seq<byte>)
    ensures Group(data, |data|, ctrl, n, out) == At(|data|, out)
  {}

  lemma GroupsStep(data: seq<byte>, i: nat, out: seq<byte>, size: nat, i': nat, out': seq<byte>)
    requires i < |data| && |out| < size && Group(data, i + 1, data[i], 8, out) == At(i', out')
    ensures Groups(data, i, out, size) == Groups(data, i', out', size)
  {
    hide Group;
  }

  /** Three bytes as they are, and two that say: again from the place the first of them went to. The output
      ends at the size the header gives. */
  lemma ThreeAgain(mode: byte, lastChar: byte, size: byte, a: byte, b: byte, c: byte)
    ensures Expand(Headed(mode, lastChar, size, 0, 0, 0) + [7, a, b, c, 0xF0, 0xF0])
         == Expanded([a, b, c, a, b, c][..Min(6, size)], lastChar)
  {
    hide Headed, Groups, Expand, Group;
    var rest := [7, a, b, c, 0xF0, 0xF0];
    var data := Headed(mode, lastChar, size, 0, 0, 0) + rest;
    var out := [a, b, c, a, b, c];
    ThreeAgainGroup(data, a, b, c);
    NoGroups(data, 14, [], size);
    NoGroups(data, 20, out, size);
    if size > 0 {
      GroupsStep(data, 14, [], size, 20, out);
      HeadedExpands(mode, lastChar, size, rest, 20, out);
    } else {
      HeadedExpands(mode, lastChar, size, rest, 14, []);
    }
  }

  lemma ThreeAgainGroup(data: seq<byte>, a: byte, b: byte, c: byte)
    requires |data| == 20 && data[15] == a && data[16] == b && data[17] == c && data[18] == 0xF0 && data[19] == 0xF0
    ensures Group(data, 15, 7, 8, []) == At(20, [a, b, c, a, b, c])
  {
    hide MatchAt, Group, Copy;
    assert [] + [a] == [a] && [a] + [b] == [a, b] && [a, b] + [c] == [a, b, c];
    LiteralStep(data, 15, 7, 8, []);
    LiteralStep(data, 16, 3, 7, [a]);
    LiteralStep(data, 17, 1, 6, [a, b]);
    MatchStep(data, 18, 0, 5, [a, b, c]);
    MatchIs(0xF0, 0xF0, 3);
    assert MatchAt(0xF0, 0xF0, 3) == Match(3, 3);
    ThreeCopied(a, b, c);
    EndStep(data, 0, 4, [a, b, c, a, b, c]);
  }

  lemma ThreeCopied(a: byte, b: byte, c: byte)
    ensures Copy([a, b, c], 3, 3) == [a, b, c, a, b, c]
  {
    hide Copy;
    CopyIs([a, b, c], 3, 3, 0);
    CopyIs([a, b, c], 3, 3, 1);
    CopyIs([a, b, c], 3, 3, 2);
    assert [a, b, c] <= Copy([a, b, c], 3, 3) && |Copy([a, b, c], 3, 3)| == 6;
  }

  lemma NoGroups(data: seq<byte>, i: nat, out: seq<byte>, size: nat)
    ensures i >= |data| || |out| >= size ==> Groups(data, i, out, size) == At(i, out)
  {
    hide Group;
  }

  /** A copy from where nothing has been written yet is of spaces. */
  lemma SpacesFirst(mode: byte, lastChar: byte, lo: byte, hi: byte)
    requires lo + hi / 16 * 256 < 4080 - 18
    ensures Expand(Headed(mode, lastChar, hi % 16 + 3, 0, 0, 0) + [0, lo, hi])
         == Expanded(seq(hi % 16 + 3, _ => 32), lastChar)
  {
    hide Headed, Groups, Expand, Group;
    var size: byte := hi % 16 + 3;
    var data := Headed(mode, lastChar, size, 0, 0, 0) + [0, lo, hi];
    var out: seq<byte> := seq(size, _ => 32);
    SpacesGroup(data, lo, hi);
    GroupsStep(data, 14, [], size, 17, out);
    NoGroups(data, 17, out, size);
    HeadedExpands(mode, lastChar, size, [0, lo, hi], 17, out);
    assert out[..size] == out;
  }

  lemma SpacesGroup(data: seq<byte>, lo: byte, hi: byte)
    requires |data| == 17 && data[15] == lo && data[16] == hi && lo + hi / 16 * 256 < 4080 - 18
    ensures Group(data, 15, 0, 8, []) == At(17, seq(hi % 16 + 3, _ => 32))
  {
    hide MatchAt, Group, Copy;
    MatchStep(data, 15, 0, 8, []);
    MatchIs(lo, hi, 0);
    var size: nat, dist: nat := hi % 16 + 3, (4079 - (lo + hi / 16 * 256)) % 4096 + 1;
    forall k | 0 <= k < size
      ensures Copy([], dist, size)[k] == 32
    {
      CopyIs([], dist, size, k);
    }
    assert Copy([], dist, size) == seq(size, _ => 32);
    EndStep(data, 0, 7, seq(size, _ => 32));
  }

  /** A byte of kinds is for eight tokens, the ninth has one of its own. */
  lemma NinthToken(mode: byte, lastChar: byte, eight: seq<byte>, ninth: byte)
    requires |eight| == 8
    ensures Expand(Headed(mode, lastChar, 9, 0, 0, 0) + ([255] + eight + [1, ninth]))
         == Expanded(eight + [ninth], lastChar)
  {
    hide Headed, Groups, Expand, Group;
    var rest := [255] + eight + [1, ninth];
    var data := Headed(mode, lastChar, 9, 0, 0, 0) + rest;
    var out := eight + [ninth];
    assert data[14] == 255 && data[15..23] == eight && data[23] == 1 && data[24] == ninth;
    EightLiterals(data, eight);
    EndStep(data, 0, 7, out);
    LiteralStep(data, 24, 1, 8, eight);
    GroupsStep(data, 14, [], 9, 23, eight);
    GroupsStep(data, 23, eight, 9, 25, out);
    NoGroups(data, 25, out, 9);
    HeadedExpands(mode, lastChar, 9, rest, 25, out);
    assert out[..9] == out;
  }

  lemma EightLiterals(data: seq<byte>, eight: seq<byte>)
    requires |data| >= 23 && data[15..23] == eight
    ensures Group(data, 15, 255, 8, []) == At(23, eight)
  {
    hide Group;
    Taken(data, eight, 0);
    Taken(data, eight, 1);
    Taken(data, eight, 2);
    Taken(data, eight, 3);
    assert eight[..0] == [];
    LiteralStep(data, 15, 255, 8, eight[..0]);
    LiteralStep(data, 16, 127, 7, eight[..1]);
    LiteralStep(data, 17, 63, 6, eight[..2]);
    LiteralStep(data, 18, 31, 5, eight[..3]);
    FourLiterals(data, eight);
  }

  lemma FourLiterals(data: seq<byte>, eight: seq<byte>)
    requires |data| >= 23 && data[15..23] == eight
    ensures Group(data, 19, 15, 4, eight[..4]) == At(23, eight)
  {
    hide Group;
    Taken(data, eight, 4);
    Taken(data, eight, 5);
    Taken(data, eight, 6);
    Taken(data, eight, 7);
    LiteralStep(data, 19, 15, 4, eight[..4]);
    LiteralStep(data, 20, 7, 3, eight[..5]);
    LiteralStep(data, 21, 3, 2, eight[..6]);
    LiteralStep(data, 22, 1, 1, eight[..7]);
    assert eight[..8] == eight;
    GroupDone(data, 23, 0, eight);
  }

  lemma Taken(data: seq<byte>, eight: seq<byte>, k: nat)
    requires |data| >= 23 && data[15..23] == eight && k < 8
    ensures eight[..k] + [data[15 + k]] == eight[..k + 1]
  {
    assert data[15 + k] == data[15..23][k];
  }

  lemma GroupDone(data: seq<byte>, i: nat, ctrl: nat, out: seq<byte>)
    ensures Group(data, i, ctrl, 0, out) == At(i, out)
  {}

  /** Files that do not expand: those without the magic, without the header's last byte, or cut inside a
      copy, even one past the size they give. */
  lemma Refused(data: seq<byte>, mode: byte, lastChar: byte, size: byte, a: byte, lo: byte)
    requires size > 0
    ensures Expand(data).NotSzdd? <==> |data| < 8 || data[..8] != [0x53, 0x5A, 0x44, 0x44, 0x88, 0xF0, 0x27, 0x33]
    ensures 8 <= |data| < 10 && !Expand(data).NotSzdd? ==> Expand(data).Truncated?
    ensures Expand(Headed(mode, lastChar, size, 0, 0, 0) + [1, a, lo]).Truncated?
  {
    hide Groups, SizeAt, Group;
    var cut := Headed(mode, lastChar, size, 0, 0, 0) + [1, a, lo];
    HeadedSize(mode, lastChar, size, 0, 0, 0, [1, a, lo]);
    assert cut[14] == 1 && cut[15] == a && |cut| == 17 && [] + [a] == [a];
    LiteralStep(cut, 15, 1, 8, []);
    CutStep(cut, 16, 0, 7, [a]);
    GroupsCut(cut, 14, [], size);
    assert cut[..8] == MAGIC;
  }

  lemma CutStep(data: seq<byte>, i: nat, ctrl: nat, n: nat, out: seq<byte>)
    requires n > 0 && i + 1 == |data| && ctrl % 2 == 0
    ensures Group(data, i, ctrl, n, out) == Cut
  {}

  lemma GroupsCut(data: seq<byte>, i: nat, out: seq<byte>, size: nat)
    requires i < |data| && |out| < size && Group(data, i + 1, data[i], 8, out) == Cut
    ensures Groups(data, i, out, size) == Cut
  {
    hide Group;
  }
}
