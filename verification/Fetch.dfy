/**
 PVFETCH's transfer (guest/fetch/fetch.c): blocks drained from a data register two bytes at a time, and a
 reply split into header and body as it arrives, however it is cut up.
 */
module Fetch {
  import opened Bytes

  const HDR_MAX := 600
  const RAW_MAX := 30000
  const PV_BURST := 512
  const PV_CHUNK := 0x2000
  const PV_BLOCK := 0xF000
  const PV_MAX_BLOCKS := 32

  // ---------------------------------------------------------------- what a reply is

  /** A blank line ends at `k`. */
  predicate BlankAt(s: seq<byte>, k: nat)
    requires k <= |s|
  {
    || (k >= 4 && s[k - 4] == 13 && s[k - 3] == 10 && s[k - 2] == 13 && s[k - 1] == 10)
    || (k >= 2 && s[k - 2] == 10 && s[k - 1] == 10)
  }

  /** Where the body starts, looking from `k` on: after the first blank line, or after 600 bytes without
      one once there is a byte more. */
  function Scan(s: seq<byte>, k: nat): Option<nat>
    requires k <= HDR_MAX
    decreases HDR_MAX - k
  {
    if k > |s| then None
    else if BlankAt(s, k) then Some(k)
    else if k == HDR_MAX then (if |s| > HDR_MAX then Some(k) else None)
    else Scan(s, k + 1)
  }

  function BodyStart(s: seq<byte>): Option<nat> { Scan(s, 0) }

  ghost predicate NoBlank(s: seq<byte>, k: nat)
    requires k <= |s|
  {
    forall j :: 0 <= j <= k ==> !BlankAt(s, j)
  }

  lemma {:induction false} ScanIs(s: seq<byte>, k: nat)
    requires k <= HDR_MAX && k <= |s| && (k > 0 ==> NoBlank(s, k - 1))
    ensures Scan(s, k) == None <==> |s| <= HDR_MAX && NoBlank(s, |s|)
    ensures Scan(s, k).Some? ==>
      var at := Scan(s, k).value;
      && at <= HDR_MAX && at <= |s| && (at > 0 ==> NoBlank(s, at - 1))
      && (BlankAt(s, at) || (at == HDR_MAX < |s|))
    decreases HDR_MAX - k
  {
    if !BlankAt(s, k) && k < HDR_MAX && k < |s| {
      ScanIs(s, k + 1);
    }
  }

  /** A body starts at `k` exactly when the first blank line within 600 bytes ends there, or there is none
      and `k` is 600. */
  lemma BodyStartsExactly(s: seq<byte>, k: nat)
    ensures BodyStart(s) == Some(k) <==>
      && k <= |s| && k <= HDR_MAX && (k > 0 ==> NoBlank(s, k - 1))
      && (BlankAt(s, k) || (k == HDR_MAX && |s| > HDR_MAX))
    ensures BodyStart(s) == None <==> |s| <= HDR_MAX && NoBlank(s, |s|)
  {
    ScanIs(s, 0);
  }

  function Header(s: seq<byte>): seq<byte>
  {
    var k := BodyStart(s);
    if k.Some? && k.value <= |s| then s[..k.value] else s
  }

  function Body(s: seq<byte>): seq<byte> {
    var k := BodyStart(s);
    if k.Some? && k.value <= |s| then s[k.value..] else []
  }

  /** Up to 63 characters of a line. */
  function Line(s: seq<byte>, room: nat): (l: seq<byte>)
    ensures |l| <= room
  {
    if s == [] || room == 0 || s[0] == 0 || s[0] == 13 || s[0] == 10 then []
    else [s[0]] + Line(s[1..], room - 1)
  }

  /** The status line, once a blank line has ended the header. */
  function StatusLine(s: seq<byte>): seq<byte> {
    var k := BodyStart(s);
    if k.Some? && k.value <= |s| && BlankAt(s, k.value) then Line(s[..k.value], 63) else []
  }

  lemma {:induction false} ScanMore(s: seq<byte>, t: seq<byte>, k: nat)
    requires k <= HDR_MAX && Scan(s, k).Some?
    ensures Scan(s + t, k) == Scan(s, k)
    decreases HDR_MAX - k
  {
    assert k <= |s| && forall i :: 0 <= i < k ==> (s + t)[i] == s[i];
    if !BlankAt(s, k) && k < HDR_MAX {
      ScanMore(s, t, k + 1);
    }
  }

  /** Once the body has started, what comes is body. */
  lemma MoreBody(s: seq<byte>, t: seq<byte>)
    requires BodyStart(s).Some?
    ensures BodyStart(s + t) == BodyStart(s)
    ensures Header(s + t) == Header(s) && Body(s + t) == Body(s) + t && StatusLine(s + t) == StatusLine(s)
  {
    ScanMore(s, t, 0);
    ScanIs(s, 0);
    var k := BodyStart(s).value;
    assert (s + t)[..k] == s[..k] && (s + t)[k..] == s[k..] + t;
    assert BlankAt(s + t, k) == BlankAt(s, k);
  }

  /** One more byte before the body has started. */
  lemma OneMore(s: seq<byte>, b: byte)
    requires BodyStart(s).None?
    ensures |s| <= HDR_MAX
    ensures |s| == HDR_MAX ==> BodyStart(s + [b]) == Some(HDR_MAX) && !BlankAt(s + [b], HDR_MAX)
    ensures |s| < HDR_MAX ==> BodyStart(s + [b]) == if BlankAt(s + [b], |s| + 1) then Some(|s| + 1) else None
  {
    ScanIs(s, 0);
    var more := s + [b];
    assert forall i :: 0 <= i < |s| ==> more[i] == s[i];
    assert forall j :: 0 <= j <= |s| ==> BlankAt(more, j) == BlankAt(s, j);
    BodyStartsExactly(more, HDR_MAX);
    BodyStartsExactly(more, |s| + 1);
  }

  // ---------------------------------------------------------------- the splitter

  class Reply {
    const hdr: array<byte>
    var hdrN: nat
    var inBody: bool
    const raw: array<byte>
    var rawn: nat
    var bodyBytes: nat
    var statusLine: seq<byte>
    /** What has been saved. */
    var file: seq<byte>
    /** Everything that has arrived. */
    ghost var stream: seq<byte>

    ghost predicate Shape()
      reads this
    {
      && hdr.Length == HDR_MAX + 4 && hdrN <= HDR_MAX
      && raw.Length == RAW_MAX && rawn <= RAW_MAX
      && hdr != raw
    }

    /** The fields say what `s` says. */
    ghost predicate Holds(s: seq<byte>)
      reads this, hdr, raw
    {
      && Shape()
      && inBody == BodyStart(s).Some?
      && hdr[..hdrN] == Header(s)
      && file == Body(s)
      && bodyBytes == |Body(s)| % 0x1_0000_0000
      && raw[..rawn] == Body(s)[..Min(|Body(s)|, RAW_MAX)]
      && statusLine == StatusLine(s)
    }

    ghost predicate Valid()
      reads this, hdr, raw
    {
      Holds(stream)
    }

    lemma ValidHolds()
      requires Valid()
      ensures Holds(stream)
    {}

    constructor ()
      ensures Valid() && stream == [] && fresh(hdr) && fresh(raw)
    {
      hdr := new byte[HDR_MAX + 4](_ => 0);
      raw := new byte[RAW_MAX](_ => 0);
      hdrN, inBody, rawn, bodyBytes, statusLine, file, stream := 0, false, 0, 0, [], [], [];
      new;
      BodyStartsExactly([], 0);
    }

    /** Keeps the header's first line for the status text. */
    method TakeStatus()
      requires Shape()
      modifies this`statusLine, hdr
      ensures statusLine == Line(old(hdr[..hdrN]), 63)
      ensures hdr[..hdrN] == old(hdr[..hdrN])
    {
      hdr[hdrN] := 0;
      ghost var line := hdr[..hdrN];
      assert line == old(hdr[..hdrN]);
      var k: nat := 0;
      statusLine := [];
      while k < 63 && hdr[k] != 0 && hdr[k] != 13 && hdr[k] != 10
        invariant k <= 63 && k <= hdrN
        invariant hdr[..hdrN] == line && hdr[hdrN] == 0
        invariant Line(line, 63) == statusLine + Line(line[k..], 63 - k)
      {
        assert k < hdrN && line[k..][0] == hdr[k] && line[k..][1..] == line[k + 1..];
        statusLine := statusLine + [hdr[k]];
        k := k + 1;
      }
      LineEnds(line[k..], 63 - k);
      assert k < hdrN ==> line[k..][0] == hdr[k];
    }

    /** Six hundred bytes have gone by without a blank line, and there is more. */
    ghost predicate GaveUp()
      reads this, hdr, raw
    {
      && Shape() && inBody && BodyStart(stream).None? && |stream| == HDR_MAX == hdrN
      && hdr[..hdrN] == stream && file == [] && bodyBytes == 0 && rawn == 0 && statusLine == []
    }

    /** One header byte. */
    method TakeHeaderByte(b: byte)
      requires Valid() && !inBody && hdrN < HDR_MAX
      modifies this, hdr
      ensures Valid() && stream == old(stream) + [b]
    {
      hide Scan, Line;
      ghost var was := stream;
      OneMore(was, b);
      NoneHeld(was);
      stream := stream + [b];
      hdr[hdrN] := b;
      hdrN := hdrN + 1;
      assert hdr[..hdrN] == stream;
      if hdrN >= 4 && hdr[hdrN - 4] == 13 && hdr[hdrN - 3] == 10 && hdr[hdrN - 2] == 13 && hdr[hdrN - 1] == 10 {
        inBody := true;
      } else if hdrN >= 2 && hdr[hdrN - 2] == 10 && hdr[hdrN - 1] == 10 {
        inBody := true;
      }
      assert inBody == BlankAt(stream, |stream|);
      if inBody {
        TakeStatus();
        HeaderWhole(stream);
      } else {
        NoneHeld(stream);
      }
    }

    /** How much of one block is still header, however far the blocks before it have got. */
    method TakeHeader(buf: array<byte>, len: nat) returns (at: nat)
      requires Valid() && !inBody && len <= buf.Length && buf != hdr && buf != raw
      modifies this, hdr
      ensures at <= len && stream == old(stream) + old(buf[..at])
      ensures Valid() || (GaveUp() && at < len)
      ensures at < len ==> inBody
    {
      hide Scan, Line, Holds;
      at := 0;
      while at < len
        invariant at <= len && Valid() && !inBody
        invariant stream == old(stream) + buf[..at]
      {
        NotYet();
        if hdrN >= HDR_MAX {
          inBody := true;
          return;
        }
        TakeHeaderByte(buf[at]);
        at := at + 1;
        assert buf[..at] == buf[..at - 1] + [buf[at - 1]];
        if inBody {
          return;
        }
      }
    }

    lemma NotYet()
      requires Valid() && !inBody
      ensures Shape() && BodyStart(stream).None? && |stream| == hdrN && hdr[..hdrN] == stream
      ensures file == [] && bodyBytes == 0 && rawn == 0 && statusLine == []
    {
      NoneHeld(stream);
    }

    /** Body bytes: to the file, and the first of them to the window. */
    method TakeBody(buf: array<byte>, at: nat, len: nat)
      requires inBody && (Valid() || GaveUp()) && 0 < len && at + len <= buf.Length && buf != hdr && buf != raw
      modifies this, raw
      ensures Valid() && stream == old(stream) + old(buf[at..at + len])
    {
      hide BodyStart, Header, Body, StatusLine;
      ghost var more := buf[at..at + len];
      ghost var body := Body(stream);
      SoFar();
      BodyGrows(stream, more);
      CountGrows(|body|, len);
      file := file + buf[at..at + len];
      bodyBytes := (bodyBytes + len) % 0x1_0000_0000;
      KeepShown(buf, at, len, body);
      stream := stream + more;
    }

    /** What of some body bytes is kept to show: as much as there is room for. */
    method KeepShown(buf: array<byte>, at: nat, len: nat, ghost body: seq<byte>)
      requires Shape() && at + len <= buf.Length && buf != hdr && buf != raw
      requires raw[..rawn] == body[..Min(|body|, RAW_MAX)]
      modifies this`rawn, raw
      ensures Shape() && raw[..rawn] == (body + buf[at..at + len])[..Min(|body + buf[at..at + len]|, RAW_MAX)]
    {
      ghost var more, kept := buf[at..at + len], raw[..rawn];
      var take: nat := 0;
      if rawn < RAW_MAX {
        var room := RAW_MAX - rawn;
        take := Min(len, room);
        FirstPart(buf[..], at, len, take);
        CopyIn(buf, at, take);
        rawn := rawn + take;
      } else {
        assert more[..take] == [];
      }
      assert raw[..rawn] == kept + more[..take];
      PreviewGrows(body, more, kept, take);
    }

    lemma SoFar()
      requires inBody && (Valid() || GaveUp())
      ensures Shape() && hdr[..hdrN] == Header(stream) && file == Body(stream) && statusLine == StatusLine(stream)
      ensures bodyBytes == |Body(stream)| % 0x1_0000_0000
      ensures raw[..rawn] == Body(stream)[..Min(|Body(stream)|, RAW_MAX)]
      ensures BodyStart(stream).Some? || |stream| == HDR_MAX
    {
      if BodyStart(stream).None? {
        NoneHeld(stream);
      }
    }

    method CopyIn(buf: array<byte>, at: nat, take: nat)
      requires rawn + take <= raw.Length && at + take <= buf.Length && buf != raw
      modifies raw
      ensures raw[..rawn + take] == old(raw[..rawn]) + old(buf[at..at + take])
    {
      var i: nat := 0;
      while i < take
        invariant i <= take && raw[..rawn + i] == old(raw[..rawn]) + buf[at..at + i]
      {
        raw[rawn + i] := buf[at + i];
        i := i + 1;
      }
    }

    /** Takes one block of the reply, wherever the blocks are cut. */
    method Consume(buf: array<byte>, len: nat)
      requires Valid() && len <= buf.Length && buf != hdr && buf != raw
      modifies this, hdr, raw
      ensures Valid() && stream == old(stream) + old(buf[..len])
    {
      hide Holds;
      var at := 0;
      ghost var block := buf[..len];
      if !inBody {
        at := TakeHeader(buf, len);
      }
      if inBody && at < len {
        TakeBody(buf, at, len - at);
        assert block == block[..at] + block[at..];
      }
    }
  }

  lemma LineEnds(l: seq<byte>, room: nat)
    requires room == 0 || l == [] || l[0] == 0 || l[0] == 13 || l[0] == 10
    ensures Line(l, room) == []
  {}

  lemma FirstPart(s: seq<byte>, at: nat, len: nat, take: nat)
    requires take <= len && at + len <= |s|
    ensures s[at..at + len][..take] == s[at..at + take]
  {}

  lemma CountGrows(n: nat, len: nat)
    ensures (n % 0x1_0000_0000 + len) % 0x1_0000_0000 == (n + len) % 0x1_0000_0000
  {}

  lemma PreviewGrows(body: seq<byte>, more: seq<byte>, kept: seq<byte>, take: nat)
    requires kept == body[..Min(|body|, RAW_MAX)]
    requires take == if |kept| < RAW_MAX then Min(|more|, RAW_MAX - |kept|) else 0
    ensures kept + more[..take] == (body + more)[..Min(|body + more|, RAW_MAX)]
  {}

  lemma NoneHeld(s: seq<byte>)
    requires BodyStart(s).None?
    ensures Header(s) == s && Body(s) == [] && StatusLine(s) == []
  {}

  lemma HeaderWhole(s: seq<byte>)
    requires BodyStart(s) == Some(|s|) && BlankAt(s, |s|)
    ensures Header(s) == s && Body(s) == [] && StatusLine(s) == Line(s, 63)
  {
    assert s[..|s|] == s;
  }

  lemma BodyGrows(s: seq<byte>, more: seq<byte>)
    requires more != [] && (BodyStart(s).Some? || |s| == HDR_MAX)
    ensures Body(s + more) == Body(s) + more && Header(s + more) == Header(s)
    ensures BodyStart(s + more).Some? && StatusLine(s + more) == StatusLine(s)
  {
    hide Scan, Line;
    if BodyStart(s).Some? {
      MoreBody(s, more);
    } else {
      OneMore(s, more[0]);
      NoneHeld(s);
      MoreBody(s + [more[0]], more[1..]);
      assert s + more == s + [more[0]] + more[1..];
      assert (s + more)[..HDR_MAX] == s && (s + more)[HDR_MAX..] == more;
    }
  }

  // ---------------------------------------------------------------- the data register

  /** The device's staged block: each read of the data register takes the next two bytes. */
  class Device {
    var staged: seq<byte>
    var pos: nat

    constructor ()
      ensures staged == [] && pos == 0
    {
      staged, pos := [], 0;
    }

    method InWord() returns (lo: byte, hi: byte)
      modifies this`pos
      ensures pos == old(pos) + 2
      ensures lo == (if old(pos) < |staged| then staged[old(pos)] else 0)
      ensures hi == (if old(pos) + 1 < |staged| then staged[old(pos) + 1] else 0)
    {
      lo := if pos < |staged| then staged[pos] else 0;
      hi := if pos + 1 < |staged| then staged[pos + 1] else 0;
      pos := pos + 2;
    }

    /** One burst: words, and half a word when a byte is left over. */
    method Burst(dst: array<byte>, done: nat, n: nat)
      requires done + n <= dst.Length && pos + n <= |staged|
      modifies this`pos, dst
      ensures pos == old(pos) + n + n % 2
      ensures dst[..done + n] == old(dst[..done]) + staged[old(pos)..old(pos) + n]
    {
      ghost var from, kept := pos, dst[..done];
      var i: nat := 0;
      while i + 1 < n
        invariant i <= n && i % 2 == 0 && pos == from + i
        invariant dst[..done + i] == kept + staged[from..from + i]
        decreases n - i
      {
        var lo, hi := InWord();
        dst[done + i] := lo;
        dst[done + i + 1] := hi;
        WordMore(dst[..done + i + 2], kept, staged, from, i);
        i := i + 2;
      }
      if i < n {
        var lo, _ := InWord();
        dst[done + i] := lo;
        ByteMore(dst[..done + i + 1], kept, staged, from, i);
      }
    }

    method Drain(dst: array<byte>, len: nat)
      requires len <= dst.Length && pos + len <= |staged|
      modifies this`pos, dst
      ensures pos == old(pos) + len + len % 2
      ensures dst[..len] == staged[old(pos)..old(pos) + len]
    {
      var done: nat := 0;
      while done < len
        invariant done <= len && (done == len || done % 2 == 0)
        invariant pos == old(pos) + done + done % 2
        invariant dst[..done] == staged[old(pos)..old(pos) + done]
      {
        var n := Min(len - done, PV_BURST);
        Burst(dst, done, n);
        Abut(staged, old(pos), done, n);
        done := done + n;
      }
    }
  }

  lemma Abut(s: seq<byte>, p: nat, a: nat, b: nat)
    requires p + a + b <= |s|
    ensures s[p..p + a] + s[p + a..p + a + b] == s[p..p + (a + b)]
  {}

  lemma WordMore(d: seq<byte>, kept: seq<byte>, s: seq<byte>, from: nat, i: nat)
    requires from + i + 2 <= |s| && |d| == |kept| + i + 2
    requires d[..|kept| + i] == kept + s[from..from + i]
    requires d[|kept| + i] == s[from + i] && d[|kept| + i + 1] == s[from + i + 1]
    ensures d == kept + s[from..from + (i + 2)]
  {
    assert d == d[..|kept| + i] + [d[|kept| + i], d[|kept| + i + 1]];
    assert s[from..from + (i + 2)] == s[from..from + i] + [s[from + i], s[from + i + 1]];
  }

  lemma ByteMore(d: seq<byte>, kept: seq<byte>, s: seq<byte>, from: nat, i: nat)
    requires from + i + 1 <= |s| && |d| == |kept| + i + 1
    requires d[..|kept| + i] == kept + s[from..from + i]
    requires d[|kept| + i] == s[from + i]
    ensures d == kept + s[from..from + (i + 1)]
  {
    assert d == d[..|kept| + i] + [d[|kept| + i]];
    assert s[from..from + (i + 1)] == s[from..from + i] + [s[from + i]];
  }

  // ---------------------------------------------------------------- the pump

  /** What the host says when asked: its state, and the block it would stage for a read. */
  datatype Answer = Answer(state: nat, block: seq<byte>)

  /** A block that is taken: data, and a count that can be right. */
  predicate Good(a: Answer) { a.state == 2 && 0 < |a.block| <= PV_BLOCK }

  function Blocks(answers: seq<Answer>): seq<byte> {
    if answers == [] then [] else Blocks(answers[..|answers| - 1]) + answers[|answers| - 1].block
  }

  /** How many of a tick's answers are taken: every good one up to the first that is not, or 32. */
  predicate Takes(answers: seq<Answer>, n: nat) {
    && n <= |answers| && n <= PV_MAX_BLOCKS
    && (forall i :: 0 <= i < n ==> Good(answers[i]))
    && (n == PV_MAX_BLOCKS || n == |answers| || !Good(answers[n]))
  }

  /** Hands one staged block over, a chunk at a time. */
  method TakeBlock(device: Device, blk: array<byte>, reply: Reply, got: nat)
    requires reply.Valid() && device.pos == 0 && |device.staged| == got
    requires blk.Length == PV_CHUNK && blk != reply.hdr && blk != reply.raw
    modifies device`pos, blk, reply, reply.hdr, reply.raw
    ensures reply.Valid() && reply.stream == old(reply.stream) + device.staged
  {
    hide Reply.Valid;
    var off: nat := 0;
    ghost var was := reply.stream;
    while off < got
      invariant off <= got && reply.Valid() && (off == got || (off % 2 == 0 && device.pos == off))
      invariant reply.stream == was + device.staged[..off]
      decreases got - off
    {
      var chunk := Min(got - off, PV_CHUNK);
      device.Drain(blk, chunk);
      ghost var piece := blk[..chunk];
      reply.Consume(blk, chunk);
      assert device.staged[..off + chunk] == device.staged[..off] + piece;
      off := off + chunk;
    }
    assert device.staged[..got] == device.staged;
  }

  /** One tick: everything the host has ready, up to 32 blocks. */
  method Pump(device: Device, blk: array<byte>, reply: Reply, answers: seq<Answer>) returns (n: nat)
    requires reply.Valid() && blk.Length == PV_CHUNK && blk != reply.hdr && blk != reply.raw
    modifies device, blk, reply, reply.hdr, reply.raw
    ensures reply.Valid()
    ensures Takes(answers, n)
    ensures reply.stream == old(reply.stream) + Blocks(answers[..n])
  {
    hide Reply.Valid;
    n := 0;
    while n < |answers|
      invariant n <= |answers| && n <= PV_MAX_BLOCKS && forall i :: 0 <= i < n ==> Good(answers[i])
      invariant reply.Valid() && reply.stream == old(reply.stream) + Blocks(answers[..n])
    {
      if answers[n].state != 2 || n == PV_MAX_BLOCKS {
        return;
      }
      device.staged, device.pos := answers[n].block, 0;
      var got := |answers[n].block|;
      if got == 0 || got > PV_BLOCK {
        return;
      }
      TakeBlock(device, blk, reply, got);
      assert answers[..n + 1][..n] == answers[..n];
      n := n + 1;
    }
  }

  /** Every block taken over any number of ticks, in order. */
  function Taken(ticks: seq<seq<Answer>>, ns: seq<nat>): seq<byte>
    requires |ns| == |ticks| && forall i :: 0 <= i < |ns| ==> Takes(ticks[i], ns[i])
  {
    if ticks == [] then []
    else
      var k := |ticks| - 1;
      assert Takes(ticks[k], ns[k]);
      Taken(ticks[..k], ns[..k]) + Blocks(ticks[k][..ns[k]])
  }

  /** A whole transfer: what is saved, counted, shown and reported depends only on the bytes that came, not
      on how ticks, blocks, chunks and bursts cut them up. */
  method Transfer(ticks: seq<seq<Answer>>) returns (reply: Reply, ns: seq<nat>)
    ensures fresh(reply)
    ensures |ns| == |ticks| && forall i :: 0 <= i < |ns| ==> Takes(ticks[i], ns[i])
    ensures reply.Holds(Taken(ticks, ns)) && Kept(reply, Taken(ticks, ns))
  {
    hide Reply.Holds, Reply.Valid, Takes, Taken, Kept;
    NothingTaken();
    reply := new Reply();
    var blk := new byte[PV_CHUNK](_ => 0);
    var device := new Device();
    ns := [];
    var i := 0;
    while i < |ticks|
      invariant i == |ns| <= |ticks| && forall k :: 0 <= k < |ns| ==> Takes(ticks[k], ns[k])
      invariant reply.Valid() && reply.stream == Taken(ticks[..i], ns)
      invariant fresh(reply) && fresh(reply.hdr) && fresh(reply.raw) && fresh(device) && fresh(blk)
      invariant blk != reply.hdr && blk != reply.raw
    {
      var n := Pump(device, blk, reply, ticks[i]);
      TakenMore(ticks[..i], ns, ticks[i], n);
      assert ticks[..i + 1] == ticks[..i] + [ticks[i]];
      ns := ns + [n];
      i := i + 1;
    }
    assert ticks[..i] == ticks;
    reply.ValidHolds();
    HeldKept(reply, Taken(ticks, ns));
  }

  // ---------------------------------------------------------------- in numbers

  /** A blank line ends at `k`: two line ends in a row, or two bare line feeds. */
  predicate Blank(s: seq<byte>, k: nat)
    requires k <= |s|
  {
    (k >= 4 && s[k - 4..k] == [13, 10, 13, 10]) || (k >= 2 && s[k - 2..k] == [10, 10])
  }

  /** A body starts behind the first blank line, if that ends in the first six hundred bytes; otherwise after six
      hundred. */
  predicate StartsAt(s: seq<byte>, k: nat) {
    && k <= |s| && k <= 600 && (forall j :: 0 <= j < k ==> !Blank(s, j))
    && (Blank(s, k) || (k == 600 && |s| > 600))
  }

  lemma StartSays(s: seq<byte>, k: nat)
    ensures BodyStart(s) == Some(k) <==> StartsAt(s, k)
  {
    hide BlankAt, Blank;
    BodyStartsExactly(s, k);
    forall j: nat | j <= |s|
      ensures BlankAt(s, j) == Blank(s, j)
    {
      BlankIs(s, j);
    }
  }

  lemma BlankIs(s: seq<byte>, k: nat)
    requires k <= |s|
    ensures BlankAt(s, k) == Blank(s, k)
  {
    if k >= 4 {
      var t := s[k - 4..k];
      assert t[0] == s[k - 4] && t[1] == s[k - 3] && t[2] == s[k - 2] && t[3] == s[k - 1];
    }
    if k >= 2 {
      var t := s[k - 2..k];
      assert t[0] == s[k - 2] && t[1] == s[k - 1];
    }
  }

  /** A first line, up to a zero byte or the end of a line, and to sixty-three characters. */
  predicate IsLine(l: seq<byte>, s: seq<byte>) {
    && l <= s && |l| <= 63 && (forall i :: 0 <= i < |l| ==> l[i] != 0 && l[i] != 13 && l[i] != 10)
    && (|l| == 63 || l == s || s[|l|] == 0 || s[|l|] == 13 || s[|l|] == 10)
  }

  lemma {:induction false} LineSays(s: seq<byte>, room: nat)
    ensures var l := Line(s, room);
      && l <= s && |l| <= room && (forall i :: 0 <= i < |l| ==> l[i] != 0 && l[i] != 13 && l[i] != 10)
      && (|l| == room || l == s || s[|l|] == 0 || s[|l|] == 13 || s[|l|] == 10)
    decreases room
  {
    if s != [] && room > 0 && s[0] != 0 && s[0] != 13 && s[0] != 10 {
      LineSays(s[1..], room - 1);
    }
  }

  /** What a reply comes down to: the header, the body behind it, its length as a 32-bit count, the first thirty
      thousand bytes of it, and the status line once a blank line has been seen. */
  ghost predicate Kept(reply: Reply, s: seq<byte>)
    reads reply, reply.hdr, reply.raw
  {
    && reply.hdrN <= reply.hdr.Length && reply.rawn <= reply.raw.Length
    && reply.hdr[..reply.hdrN] + reply.file == s
    && (reply.inBody <==> exists k: nat :: StartsAt(s, k))
    && (forall k: nat :: StartsAt(s, k) ==>
          && reply.hdrN == k
          && (if Blank(s, k) then IsLine(reply.statusLine, s[..k]) else reply.statusLine == []))
    && (!reply.inBody ==> reply.file == [] && reply.statusLine == [])
    && reply.bodyBytes == |reply.file| % 4294967296
    && reply.raw[..reply.rawn] == reply.file[..Min(|reply.file|, 30000)]
  }

  lemma HeldKept(reply: Reply, s: seq<byte>)
    requires reply.Holds(s)
    ensures Kept(reply, s)
  {
    hide Scan, BlankAt, Blank, Line, IsLine, StartsAt;
    forall k: nat
      ensures BodyStart(s) == Some(k) <==> StartsAt(s, k)
    {
      StartSays(s, k);
    }
    forall k: nat | StartsAt(s, k)
      ensures k <= |s| && BlankAt(s, k) == Blank(s, k) && IsLine(Line(s[..k], 63), s[..k])
    {
      StartInside(s, k);
      BlankIs(s, k);
      StatusSays(s[..k]);
    }
    WholeReply(s);
  }

  lemma StartInside(s: seq<byte>, k: nat)
    requires StartsAt(s, k)
    ensures k <= |s|
  {
    hide Blank;
  }

  lemma StatusSays(s: seq<byte>)
    ensures IsLine(Line(s, 63), s)
  {
    LineSays(s, 63);
  }

  lemma WholeReply(s: seq<byte>)
    ensures Header(s) + Body(s) == s && |Header(s)| <= |s|
    ensures BodyStart(s).None? ==> Header(s) == s && Body(s) == [] && StatusLine(s) == []
    ensures BodyStart(s).Some? && BodyStart(s).value <= |s| ==> |Header(s)| == BodyStart(s).value
  {
    hide Scan;
  }

  /** How many blocks a tick takes. */
  lemma TakesSays(answers: seq<Answer>, n: nat)
    ensures Takes(answers, n) <==>
            && n <= |answers| && n <= 32
            && (forall i :: 0 <= i < n ==> answers[i].state == 2 && 0 < |answers[i].block| <= 61440)
            && (n == 32 || n == |answers| || answers[n].state != 2 || answers[n].block == []
                || |answers[n].block| > 61440)
  {}

  lemma NothingTaken()
    ensures Taken([], []) == []
  {}

  lemma TakenMore(ticks: seq<seq<Answer>>, ns: seq<nat>, tick: seq<Answer>, n: nat)
    requires |ns| == |ticks| && (forall i :: 0 <= i < |ns| ==> Takes(ticks[i], ns[i])) && Takes(tick, n)
    ensures forall i :: 0 <= i < |ns + [n]| ==> Takes((ticks + [tick])[i], (ns + [n])[i])
    ensures Taken(ticks + [tick], ns + [n]) == Taken(ticks, ns) + Blocks(tick[..n])
  {
    hide Takes;
    var all, counts := ticks + [tick], ns + [n];
    forall i | 0 <= i < |counts|
      ensures Takes(all[i], counts[i])
    {
      if i < |ns| {
        assert Takes(ticks[i], ns[i]);
      }
    }
    assert all[..|ticks|] == ticks && counts[..|ticks|] == ns;
  }
}
