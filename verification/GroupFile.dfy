/**
 Program Manager group files (tools/grpadd.py): what the parser reads, what the builder writes, and that
 the one undoes the other.
 */
module GroupFile {
  import opened Bytes
  import opened Rects

  type word = n: nat | n < 0x1_0000

  /** One item: its place, its icon and three texts, kept as the bytes the file holds. */
  datatype Item = Item(
    x: int, y: int, icon: nat,
    hdr: seq<byte>, andp: seq<byte>, xorp: seq<byte>,
    name: seq<byte>, cmd: seq<byte>, iconpath: seq<byte>)

  datatype Group = Group(
    ncmd: nat, rc: Rect, minX: int, minY: int, gname: seq<byte>,
    cx: nat, cy: nat, fmt: nat, items: seq<Item>)

  // ---------------------------------------------------------------- words

  predicate Short(v: int) { -0x8000 <= v < 0x8000 }

  /** A signed 16-bit field. */
  function Unsigned(v: int): word
    requires Short(v)
  {
    if v < 0 then v + 0x1_0000 else v
  }

  function Signed(w: word): int { if w >= 0x8000 then w - 0x1_0000 else w }

  function PackWords(ws: seq<word>): (s: seq<byte>)
    ensures |s| == 2 * |ws|
  {
    if ws == [] then [] else Le16(ws[0]) + PackWords(ws[1..])
  }

  function WordSum(s: seq<byte>): nat {
    if |s| < 2 then 0 else ReadLe16(s, 0) + WordSum(s[2..])
  }

  /** The words of `ws` can be read back, wherever in a file they stand. */
  ghost predicate WordsAt(g: seq<byte>, p: nat, ws: seq<word>) {
    && p + 2 * |ws| <= |g|
    && forall k :: 0 <= k < |ws| ==> WordIs(g, p + 2 * k, ws[k])
  }

  ghost predicate WordIs(g: seq<byte>, p: nat, w: nat) { p + 2 <= |g| && ReadLe16(g, p) == w }

  lemma {:induction false} WordsRead(g: seq<byte>, p: nat, ws: seq<word>)
    requires p + 2 * |ws| <= |g| && g[p..p + 2 * |ws|] == PackWords(ws)
    ensures WordsAt(g, p, ws)
    decreases |ws|
  {
    hide Le16, ReadLe16;
    if ws != [] {
      var rest := PackWords(ws[1..]);
      LeSize(ws[0]);
      assert g[p..p + 2 * |ws|] == Le16(ws[0]) + rest;
      assert g[p..p + 2] == g[p..p + 2 * |ws|][..2];
      Le16Back(g, p, ws[0]);
      assert g[p + 2..p + 2 + 2 * |ws[1..]|] == g[p..p + 2 * |ws|][2..];
      WordsRead(g, p + 2, ws[1..]);
      forall k | 0 <= k < |ws|
        ensures WordIs(g, p + 2 * k, ws[k])
      {
        if k > 0 {
          assert WordIs(g, p + 2 + 2 * (k - 1), ws[1..][k - 1]);
        }
      }
    }
  }

  lemma LeSize(n: nat)
    requires n < 0x1_0000
    ensures |Le16(n)| == 2
  {}

  // ---------------------------------------------------------------- texts

  function NulFrom(g: seq<byte>, off: nat): (at: Option<nat>)
    ensures at.Some? ==> off <= at.value < |g|
    decreases |g| - off
  {
    if off >= |g| then None else if g[off] == 0 then Some(off) else NulFrom(g, off + 1)
  }

  /** The text that starts at an offset and runs to the first zero byte, if there is one. */
  function CStr(g: seq<byte>, off: nat): Option<seq<byte>> {
    var end := NulFrom(g, off);
    if end == None then None else Some(g[off..end.value])
  }

  predicate NulFree(s: seq<byte>) { forall i :: 0 <= i < |s| ==> s[i] != 0 }

  /** What is left of a text that runs into its own zero byte. */
  function Cut(s: seq<byte>): (t: seq<byte>)
    ensures |t| <= |s|
  {
    if s == [] || s[0] == 0 then [] else [s[0]] + Cut(s[1..])
  }

  lemma {:induction false} CutKeeps(s: seq<byte>)
    ensures NulFree(Cut(s))
    ensures Cut(s) == s <==> NulFree(s)
  {
    if s != [] && s[0] != 0 {
      CutKeeps(s[1..]);
      assert s == [s[0]] + s[1..];
      assert NulFree(s) <==> NulFree(s[1..]);
    }
  }

  lemma {:induction false} CStrAt(g: seq<byte>, off: nat, s: seq<byte>)
    requires off + |s| + 1 <= |g| && g[off..off + |s| + 1] == s + [0]
    ensures CStr(g, off) == Some(Cut(s))
    decreases |s|
  {
    assert g[off] == g[off..off + |s| + 1][0] == (s + [0])[0];
    if s != [] && s[0] != 0 {
      assert g[off + 1..off + 1 + |s[1..]| + 1] == g[off..off + |s| + 1][1..] == s[1..] + [0];
      CStrAt(g, off + 1, s[1..]);
      var end := NulFrom(g, off + 1).value;
      assert g[off..end] == [g[off]] + g[off + 1..end];
      assert Cut(s) == [s[0]] + Cut(s[1..]);
    } else {
      assert g[off] == 0;
      assert NulFrom(g, off) == Some(off) && g[off..off] == [] && Cut(s) == [];
    }
  }

  // ---------------------------------------------------------------- reading

  /** What a slice past the end gives. */
  function Slice(g: seq<byte>, p: nat, n: nat): seq<byte> {
    g[Min(p, |g|)..Min(p + n, |g|)]
  }

  function ParseItem(g: seq<byte>, o: nat): Option<Item> {
    if o + 24 > |g| then None
    else
      var name := CStr(g, ReadLe16(g, o + 18));
      var cmd := CStr(g, ReadLe16(g, o + 20));
      var iconpath := CStr(g, ReadLe16(g, o + 22));
      if name == None || cmd == None || iconpath == None then None
      else
        Some(Item(
          Signed(ReadLe16(g, o)), Signed(ReadLe16(g, o + 2)), ReadLe16(g, o + 4),
          Slice(g, ReadLe16(g, o + 12), ReadLe16(g, o + 6)),
          Slice(g, ReadLe16(g, o + 14), ReadLe16(g, o + 8)),
          Slice(g, ReadLe16(g, o + 16), ReadLe16(g, o + 10)),
          name.value, cmd.value, iconpath.value))
  }

  function AndItem(items: Option<seq<Item>>, it: Option<Item>): Option<seq<Item>> {
    if items == None || it == None then None else Some(items.value + [it.value])
  }

  /** The items of the first `n` slots; a slot whose offset is 0 is empty. */
  function ParseItems(g: seq<byte>, n: nat): Option<seq<Item>>
    requires 34 + 2 * n <= |g|
  {
    if n == 0 then Some([])
    else
      var o := ReadLe16(g, 34 + 2 * (n - 1));
      if o == 0 then ParseItems(g, n - 1) else AndItem(ParseItems(g, n - 1), ParseItem(g, o))
  }

  const PMCC: seq<byte> := [0x50, 0x4D, 0x43, 0x43]

  function ParseOf(g: seq<byte>): Option<Group> {
    if |g| < 34 || g[..4] != PMCC then None
    else
      var n := ReadLe16(g, 32);
      if 34 + 2 * n > |g| then None
      else
        var items, gname := ParseItems(g, n), CStr(g, ReadLe16(g, 22));
        if items == None || gname == None then None
        else
          Some(Group(
            ReadLe16(g, 8),
            Rect(Signed(ReadLe16(g, 10)), Signed(ReadLe16(g, 12)), Signed(ReadLe16(g, 14)), Signed(ReadLe16(g, 16))),
            Signed(ReadLe16(g, 18)), Signed(ReadLe16(g, 20)), gname.value,
            ReadLe16(g, 24), ReadLe16(g, 26), ReadLe16(g, 28), items.value))
  }

  /** Reads a file slot by slot; nothing for a file the reader gives up on. */
  method Parse(g: seq<byte>) returns (r: Option<Group>)
    ensures r == ParseOf(g)
  {
    hide ParseItem, ReadLe16, CStr;
    if |g| < 34 || g[..4] != PMCC {
      return None;
    }
    var n := ReadLe16(g, 32);
    if 34 + 2 * n > |g| {
      return None;
    }
    var items: seq<Item> := [];
    var i: nat := 0;
    while i < n
      invariant i <= n && ParseItems(g, i) == Some(items)
    {
      var o := ReadLe16(g, 34 + 2 * i);
      if o != 0 {
        var it := ParseItem(g, o);
        if it == None {
          NoneStays(g, i + 1, n);
          return None;
        }
        items := items + [it.value];
      }
      i := i + 1;
    }
    var gname := CStr(g, ReadLe16(g, 22));
    if gname == None {
      return None;
    }
    r := Some(Group(
      ReadLe16(g, 8),
      Rect(Signed(ReadLe16(g, 10)), Signed(ReadLe16(g, 12)), Signed(ReadLe16(g, 14)), Signed(ReadLe16(g, 16))),
      Signed(ReadLe16(g, 18)), Signed(ReadLe16(g, 20)), gname.value,
      ReadLe16(g, 24), ReadLe16(g, 26), ReadLe16(g, 28), items));
  }

  lemma {:induction false} NoneStays(g: seq<byte>, i: nat, n: nat)
    requires i <= n && 34 + 2 * n <= |g| && ParseItems(g, i) == None
    ensures ParseItems(g, n) == None
    decreases n - i
  {
    if i < n {
      NoneStays(g, i, n - 1);
    }
  }

  // ---------------------------------------------------------------- writing

  function TailSize(it: Item): nat {
    |it.name| + 1 + |it.cmd| + 1 + |it.iconpath| + 1 + |it.hdr| + |it.andp| + |it.xorp|
  }

  /** Where the items end when they start at `start`. */
  function EndOf(items: seq<Item>, start: nat): (end: nat)
    ensures end >= start
  {
    if items == [] then start
    else EndOf(items[..|items| - 1], start) + 24 + TailSize(items[|items| - 1])
  }

  predicate ItemNumbers(it: Item) { Short(it.x) && Short(it.y) && it.icon < 0x1_0000 }

  /** Every number of the items fits its field. */
  predicate ItemsFit(items: seq<Item>, start: nat) {
    EndOf(items, start) < 0x1_0000 && forall i :: 0 <= i < |items| ==> ItemNumbers(items[i])
  }

  function ItemWords(it: Item, o: nat): (ws: seq<word>)
    requires ItemNumbers(it) && o + 24 + TailSize(it) < 0x1_0000
    ensures |ws| == 12
  {
    var pn := o + 24;
    var pc := pn + |it.name| + 1;
    var pi := pc + |it.cmd| + 1;
    var ph := pi + |it.iconpath| + 1;
    var pa := ph + |it.hdr|;
    var px := pa + |it.andp|;
    [Unsigned(it.x), Unsigned(it.y), it.icon, |it.hdr|, |it.andp|, |it.xorp|, ph, pa, px, pn, pc, pi]
  }

  function ItemTail(it: Item): (s: seq<byte>)
    ensures |s| == TailSize(it)
  {
    ((it.name + [0]) + (it.cmd + [0]) + (it.iconpath + [0])) + (it.hdr + it.andp + it.xorp)
  }

  function ItemBytes(it: Item, o: nat): (s: seq<byte>)
    requires ItemNumbers(it) && o + 24 + TailSize(it) < 0x1_0000
    ensures |s| == 24 + TailSize(it)
  {
    PackWords(ItemWords(it, o)) + ItemTail(it)
  }

  function ItemsBytes(items: seq<Item>, start: nat): (s: seq<byte>)
    requires ItemsFit(items, start)
    ensures |s| == EndOf(items, start) - start
  {
    if items == [] then []
    else
      var n := |items| - 1;
      ItemsBytes(items[..n], start) + ItemBytes(items[n], EndOf(items[..n], start))
  }

  function Offsets(items: seq<Item>, start: nat): (ws: seq<word>)
    requires EndOf(items, start) < 0x1_0000
    ensures |ws| == |items|
  {
    if items == [] then []
    else
      var n := |items| - 1;
      Offsets(items[..n], start) + [EndOf(items[..n], start)]
  }

  function ItemsStart(g: Group): nat { 34 + 2 * |g.items| + |g.gname| + 1 }

  function Even(n: nat): nat { n + n % 2 }

  /** The file's length, up to a whole word. */
  function FileSize(g: Group): nat { Even(EndOf(g.items, ItemsStart(g))) }

  predicate HeadFits(g: Group) {
    && g.ncmd < 0x1_0000 && g.cx < 0x1_0000 && g.cy < 0x1_0000 && g.fmt < 0x1_0000
    && Short(g.rc.left) && Short(g.rc.top) && Short(g.rc.right) && Short(g.rc.bottom)
    && Short(g.minX) && Short(g.minY)
  }

  /** Every number of the group fits its field. */
  predicate Fits(g: Group) {
    && HeadFits(g)
    && FileSize(g) < 0x1_0000
    && forall i :: 0 <= i < |g.items| ==> ItemNumbers(g.items[i])
  }

  /** The header after its checksum. */
  function HeadWords(g: Group): (ws: seq<word>)
    requires Fits(g)
    ensures |ws| == 14
  {
    EndGrows(g.items, ItemsStart(g));
    [FileSize(g), g.ncmd,
     Unsigned(g.rc.left), Unsigned(g.rc.top), Unsigned(g.rc.right), Unsigned(g.rc.bottom),
     Unsigned(g.minX), Unsigned(g.minY), 34 + 2 * |g.items|, g.cx, g.cy, g.fmt, 0, |g.items|]
  }

  lemma EndGrows(items: seq<Item>, start: nat)
    ensures EndOf(items, start) >= start
  {}

  function Padding(g: Group): seq<byte> {
    if EndOf(g.items, ItemsStart(g)) % 2 == 0 then [] else [0]
  }

  /** Everything after the checksum. */
  function Rest(g: Group): (s: seq<byte>)
    requires Fits(g)
    ensures |s| == FileSize(g) - 6
  {
    PackWords(HeadWords(g)) + PackWords(Offsets(g.items, ItemsStart(g)))
      + (g.gname + [0]) + ItemsBytes(g.items, ItemsStart(g)) + Padding(g)
  }

  function WithCheck(g: Group, check: word): (s: seq<byte>)
    requires Fits(g)
    ensures |s| == FileSize(g)
  {
    PMCC + Le16(check) + Rest(g)
  }

  function FileOf(g: Group): Option<seq<byte>> {
    if !Fits(g) then None
    else Some(WithCheck(g, (0x1_0000 - WordSum(WithCheck(g, 0)) % 0x1_0000) % 0x1_0000))
  }

  /** The checksum makes the words of the file sum to zero. */
  lemma WordsSumToZero(g: Group)
    requires Fits(g)
    ensures FileOf(g).Some? && WordSum(FileOf(g).value) % 0x1_0000 == 0
  {
    hide Rest, WordSum, Fits;
    var raw := WithCheck(g, 0);
    var check := (0x1_0000 - WordSum(raw) % 0x1_0000) % 0x1_0000;
    SumOfCheck(Rest(g), 0);
    SumOfCheck(Rest(g), check);
  }

  lemma SumOfCheck(rest: seq<byte>, check: word)
    ensures WordSum(PMCC + Le16(check) + rest) == 0x4D50 + 0x4343 + check + WordSum(rest)
  {
    hide WordSum;
    var s := PMCC + Le16(check) + rest;
    SumStep(s);
    SumStep(s[2..]);
    SumStep(s[4..]);
    assert s[2..][2..] == s[4..] && s[4..][2..] == rest;
    Le16Back(s[4..], 0, check) by {
      assert s[4..][0..2] == Le16(check);
    }
  }

  lemma SumStep(s: seq<byte>)
    requires |s| >= 2
    ensures WordSum(s) == ReadLe16(s, 0) + WordSum(s[2..])
  {}

  // ---------------------------------------------------------------- reading back what was written

  function CutItem(it: Item): Item {
    it.(name := Cut(it.name), cmd := Cut(it.cmd), iconpath := Cut(it.iconpath))
  }

  function CutItems(items: seq<Item>): (cut: seq<Item>)
    ensures |cut| == |items|
    ensures forall i :: 0 <= i < |items| ==> cut[i] == CutItem(items[i])
  {
    if items == [] then [] else CutItems(items[..|items| - 1]) + [CutItem(items[|items| - 1])]
  }

  function CutGroup(g: Group): Group {
    g.(gname := Cut(g.gname), items := CutItems(g.items))
  }

  lemma SignedBack(v: int)
    requires Short(v)
    ensures Signed(Unsigned(v)) == v
  {}

  /** The six pieces behind an item's numbers. */
  lemma TailParts(f: seq<byte>, p: nat, it: Item)
    requires HeldAt(f, p, ItemTail(it))
    ensures var pc := p + |it.name| + 1;
      var pi := pc + |it.cmd| + 1;
      var ph := pi + |it.iconpath| + 1;
      && HeldAt(f, p, it.name + [0]) && HeldAt(f, pc, it.cmd + [0]) && HeldAt(f, pi, it.iconpath + [0])
      && HeldAt(f, ph, it.hdr) && HeldAt(f, ph + |it.hdr|, it.andp) && HeldAt(f, ph + |it.hdr| + |it.andp|, it.xorp)
  {
    hide HeldAt;
    var a, b, c := it.name + [0], it.cmd + [0], it.iconpath + [0];
    Parts(f, p, a + b + c, it.hdr + it.andp + it.xorp);
    ThreeParts(f, p, a, b, c);
    ThreeParts(f, p + |a| + |b| + |c|, it.hdr, it.andp, it.xorp);
  }

  lemma ThreeParts(f: seq<byte>, p: nat, a: seq<byte>, b: seq<byte>, c: seq<byte>)
    requires HeldAt(f, p, a + b + c)
    ensures HeldAt(f, p, a) && HeldAt(f, p + |a|, b) && HeldAt(f, p + |a| + |b|, c)
  {
    hide HeldAt;
    Parts(f, p, a + b, c);
    Parts(f, p, a, b);
  }

  lemma TextHere(f: seq<byte>, p: nat, s: seq<byte>)
    requires HeldAt(f, p, s + [0])
    ensures CStr(f, p) == Some(Cut(s))
  {
    CStrAt(f, p, s);
  }

  lemma SliceHere(f: seq<byte>, p: nat, s: seq<byte>)
    requires HeldAt(f, p, s)
    ensures Slice(f, p, |s|) == s
  {}

  /** One item reads back, up to what its texts' own zero bytes cut off. */
  lemma ItemReadsBack(f: seq<byte>, o: nat, it: Item)
    requires ItemNumbers(it) && o + 24 + TailSize(it) < 0x1_0000 && HeldAt(f, o, ItemBytes(it, o))
    ensures ParseItem(f, o) == Some(CutItem(it))
  {
    hide PackWords, ItemTail, HeldAt, CStr, Slice, Cut, ReadLe16, Unsigned, Signed, WordsAt;
    var ws := ItemWords(it, o);
    Parts(f, o, PackWords(ws), ItemTail(it));
    ItemWordsHere(f, o, it);
    TailParts(f, o + 24, it);
    var pc := o + 24 + |it.name| + 1;
    var pi := pc + |it.cmd| + 1;
    var ph := pi + |it.iconpath| + 1;
    TextHere(f, o + 24, it.name);
    TextHere(f, pc, it.cmd);
    TextHere(f, pi, it.iconpath);
    SliceHere(f, ph, it.hdr);
    SliceHere(f, ph + |it.hdr|, it.andp);
    SliceHere(f, ph + |it.hdr| + |it.andp|, it.xorp);
    SignedBack(it.x);
    SignedBack(it.y);
  }

  lemma ItemWordsHere(f: seq<byte>, o: nat, it: Item)
    requires ItemNumbers(it) && o + 24 + TailSize(it) < 0x1_0000
    requires HeldAt(f, o, PackWords(ItemWords(it, o)))
    ensures o + 24 <= |f|
    ensures var pc := o + 24 + |it.name| + 1;
      var pi := pc + |it.cmd| + 1;
      var ph := pi + |it.iconpath| + 1;
      && ReadLe16(f, o) == Unsigned(it.x) && ReadLe16(f, o + 2) == Unsigned(it.y) && ReadLe16(f, o + 4) == it.icon
      && ReadLe16(f, o + 6) == |it.hdr| && ReadLe16(f, o + 8) == |it.andp| && ReadLe16(f, o + 10) == |it.xorp|
      && ReadLe16(f, o + 12) == ph && ReadLe16(f, o + 14) == ph + |it.hdr|
      && ReadLe16(f, o + 16) == ph + |it.hdr| + |it.andp|
      && ReadLe16(f, o + 18) == o + 24 && ReadLe16(f, o + 20) == pc && ReadLe16(f, o + 22) == pi
  {
    hide PackWords, ReadLe16, Unsigned;
    var ws := ItemWords(it, o);
    WordsRead(f, o, ws);
    assert WordIs(f, o + 2 * 0, ws[0]) && WordIs(f, o + 2 * 1, ws[1]) && WordIs(f, o + 2 * 2, ws[2]);
    assert WordIs(f, o + 2 * 3, ws[3]) && WordIs(f, o + 2 * 4, ws[4]) && WordIs(f, o + 2 * 5, ws[5]);
    assert WordIs(f, o + 2 * 6, ws[6]) && WordIs(f, o + 2 * 7, ws[7]) && WordIs(f, o + 2 * 8, ws[8]);
    assert WordIs(f, o + 2 * 9, ws[9]) && WordIs(f, o + 2 * 10, ws[10]) && WordIs(f, o + 2 * 11, ws[11]);
  }

  /** The items of a file stand where their offsets say. */
  lemma {:induction false} ItemsReadBack(f: seq<byte>, items: seq<Item>, start: nat)
    requires ItemsFit(items, start) && start > 0 && 34 + 2 * |items| <= |f|
    requires HeldAt(f, start, ItemsBytes(items, start))
    requires forall k :: 0 <= k < |items| ==> WordIs(f, 34 + 2 * k, Offsets(items, start)[k])
    ensures ParseItems(f, |items|) == Some(CutItems(items))
    decreases |items|
  {
    hide ParseItem, ItemBytes, CutItem, HeldAt, ReadLe16, ItemsFit, Offsets, EndOf, ItemsBytes, ParseItems, CutItems;
    hide TailSize;
    if items == [] {
      NoItemsRead(f, items);
    } else {
      var n := |items| - 1;
      var front, o := items[..n], EndOf(items[..n], start);
      ItemsUnfold(items, start);
      ParseUnfold(f, items);
      forall k | 0 <= k < n
        ensures WordIs(f, 34 + 2 * k, Offsets(front, start)[k])
      {
        assert WordIs(f, 34 + 2 * k, Offsets(items, start)[k]);
      }
      Parts(f, start, ItemsBytes(front, start), ItemBytes(items[n], o));
      ItemsReadBack(f, front, start);
      assert WordIs(f, 34 + 2 * n, Offsets(items, start)[n]);
      BytesEnd(front, start);
      ItemReadsBack(f, o, items[n]);
    }
  }

  lemma NoItemsRead(f: seq<byte>, items: seq<Item>)
    requires items == [] && 34 <= |f|
    ensures ParseItems(f, 0) == Some(CutItems(items))
  {}

  lemma ParseUnfold(f: seq<byte>, items: seq<Item>)
    requires items != [] && 34 + 2 * |items| <= |f|
    ensures var n := |items| - 1;
      var o := ReadLe16(f, 34 + 2 * n);
      && ParseItems(f, n + 1) == (if o == 0 then ParseItems(f, n) else AndItem(ParseItems(f, n), ParseItem(f, o)))
      && CutItems(items) == CutItems(items[..n]) + [CutItem(items[n])]
  {
    hide ParseItem, CutItem, ReadLe16;
  }

  lemma ItemsUnfold(items: seq<Item>, start: nat)
    requires items != [] && ItemsFit(items, start)
    ensures var n := |items| - 1;
      var o := EndOf(items[..n], start);
      && start <= o && o + 24 + TailSize(items[n]) == EndOf(items, start) < 0x1_0000
      && ItemsFit(items[..n], start) && ItemNumbers(items[n])
      && Offsets(items, start) == Offsets(items[..n], start) + [o]
      && ItemsBytes(items, start) == ItemsBytes(items[..n], start) + ItemBytes(items[n], o)
  {
    hide ItemBytes, TailSize, ItemNumbers;
  }

  lemma BytesEnd(items: seq<Item>, start: nat)
    requires ItemsFit(items, start)
    ensures start + |ItemsBytes(items, start)| == EndOf(items, start)
  {}

  lemma {:induction false} OffsetAt(items: seq<Item>, start: nat, k: nat)
    requires EndOf(items, start) < 0x1_0000 && k < |items|
    ensures Offsets(items, start)[k] == EndOf(items[..k], start)
    ensures start <= Offsets(items, start)[k]
    ensures Offsets(items, start)[k] + 24 + TailSize(items[k]) <= EndOf(items, start)
    decreases |items|
  {
    hide TailSize;
    var n := |items| - 1;
    if k < n {
      OffsetAt(items[..n], start, k);
      assert items[..n][..k] == items[..k];
    }
  }

  /** No item of a built file stands at 0, and each ends before the next starts. */
  lemma {:induction false} OffsetsApart(items: seq<Item>, start: nat, i: nat, j: nat)
    requires EndOf(items, start) < 0x1_0000 && start > 0 && i < j < |items|
    ensures 0 < Offsets(items, start)[i]
    ensures Offsets(items, start)[i] + 24 + TailSize(items[i]) <= Offsets(items, start)[j]
  {
    hide TailSize;
    OffsetAt(items, start, i);
    OffsetAt(items, start, j);
    EndBefore(items, start, j);
    OffsetAt(items[..j], start, i);
    assert items[..j][..i] == items[..i];
  }

  lemma {:induction false} EndBefore(items: seq<Item>, start: nat, k: nat)
    requires k <= |items|
    ensures EndOf(items[..k], start) <= EndOf(items, start)
    decreases |items|
  {
    if k < |items| {
      assert items[..|items| - 1][..k] == items[..k];
      EndBefore(items[..|items| - 1], start, k);
    } else {
      assert items[..k] == items;
    }
  }

  lemma FileParts(g: Group, check: word)
    requires Fits(g)
    ensures var f := WithCheck(g, check);
      && f[..4] == PMCC && HeldAt(f, 6, PackWords(HeadWords(g)))
      && HeldAt(f, 34, PackWords(Offsets(g.items, ItemsStart(g))))
      && HeldAt(f, 34 + 2 * |g.items|, g.gname + [0])
      && HeldAt(f, ItemsStart(g), ItemsBytes(g.items, ItemsStart(g)))
  {
    hide HeldAt, PackWords, HeadWords, Offsets, ItemsBytes, Padding;
    var f := WithCheck(g, check);
    var a, b, c, d := PackWords(HeadWords(g)), PackWords(Offsets(g.items, ItemsStart(g))), g.gname + [0],
                      ItemsBytes(g.items, ItemsStart(g));
    Itself(f, 6, PMCC + Le16(check), Rest(g));
    Parts(f, 6, a + b + c + d, Padding(g));
    Parts(f, 6, a + b + c, d);
    ThreeParts(f, 6, a, b, c);
  }

  lemma Itself(f: seq<byte>, p: nat, s: seq<byte>, t: seq<byte>)
    requires f == s + t && p == |s|
    ensures HeldAt(f, p, t)
  {}

  lemma HeadHere(f: seq<byte>, g: Group)
    requires Fits(g) && HeldAt(f, 6, PackWords(HeadWords(g)))
    ensures |f| >= 34 && ReadLe16(f, 8) == g.ncmd
    ensures ReadLe16(f, 10) == Unsigned(g.rc.left) && ReadLe16(f, 12) == Unsigned(g.rc.top)
    ensures ReadLe16(f, 14) == Unsigned(g.rc.right) && ReadLe16(f, 16) == Unsigned(g.rc.bottom)
    ensures ReadLe16(f, 18) == Unsigned(g.minX) && ReadLe16(f, 20) == Unsigned(g.minY)
    ensures ReadLe16(f, 22) == 34 + 2 * |g.items|
    ensures ReadLe16(f, 24) == g.cx && ReadLe16(f, 26) == g.cy && ReadLe16(f, 28) == g.fmt
    ensures ReadLe16(f, 6) == FileSize(g) && ReadLe16(f, 30) == 0 && ReadLe16(f, 32) == |g.items|
  {
    hide PackWords, ReadLe16, Unsigned, EndOf;
    var ws := HeadWords(g);
    WordsRead(f, 6, ws);
    assert WordIs(f, 6 + 2 * 0, ws[0]) && WordIs(f, 6 + 2 * 12, ws[12]);
    assert WordIs(f, 6 + 2 * 1, ws[1]) && WordIs(f, 6 + 2 * 2, ws[2]) && WordIs(f, 6 + 2 * 3, ws[3]);
    assert WordIs(f, 6 + 2 * 4, ws[4]) && WordIs(f, 6 + 2 * 5, ws[5]) && WordIs(f, 6 + 2 * 6, ws[6]);
    assert WordIs(f, 6 + 2 * 7, ws[7]) && WordIs(f, 6 + 2 * 8, ws[8]) && WordIs(f, 6 + 2 * 9, ws[9]);
    assert WordIs(f, 6 + 2 * 10, ws[10]) && WordIs(f, 6 + 2 * 11, ws[11]) && WordIs(f, 6 + 2 * 13, ws[13]);
  }

  /** Whatever the checksum says, parsing a built file gives the group back, its texts cut at their own
      zero bytes. */
  lemma BuiltParses(g: Group, check: word)
    requires Fits(g)
    ensures ParseOf(WithCheck(g, check)) == Some(CutGroup(g))
  {
    hide HeldAt, PackWords, HeadWords, Offsets, ItemsBytes, WithCheck, ReadLe16, Unsigned, Signed, CStr, Cut, CutItems,
         ParseItems, WordsAt;
    var f, start := WithCheck(g, check), ItemsStart(g);
    FileParts(g, check);
    HeadHere(f, g);
    SignedBack(g.rc.left);
    SignedBack(g.rc.top);
    SignedBack(g.rc.right);
    SignedBack(g.rc.bottom);
    SignedBack(g.minX);
    SignedBack(g.minY);
    TextHere(f, 34 + 2 * |g.items|, g.gname);
    OffsetsHere(f, g);
    ItemsReadBack(f, g.items, start);
  }

  lemma OffsetsHere(f: seq<byte>, g: Group)
    requires Fits(g) && HeldAt(f, 34, PackWords(Offsets(g.items, ItemsStart(g))))
    ensures 34 + 2 * |g.items| <= |f|
    ensures forall k :: 0 <= k < |g.items| ==> WordIs(f, 34 + 2 * k, Offsets(g.items, ItemsStart(g))[k])
  {
    hide Offsets, ReadLe16, EndOf;
    WordsRead(f, 34, Offsets(g.items, ItemsStart(g)));
  }

  predicate TextsWhole(it: Item) { NulFree(it.name) && NulFree(it.cmd) && NulFree(it.iconpath) }

  predicate AllWhole(g: Group) { NulFree(g.gname) && forall i :: 0 <= i < |g.items| ==> TextsWhole(g.items[i]) }

  lemma CutItemKeeps(it: Item)
    ensures CutItem(it) == it <==> TextsWhole(it)
    ensures TextsWhole(CutItem(it))
  {
    CutKeeps(it.name);
    CutKeeps(it.cmd);
    CutKeeps(it.iconpath);
  }

  lemma CutGroupKeeps(g: Group)
    ensures CutGroup(g) == g <==> AllWhole(g)
  {
    hide CutItem, Cut, NulFree, TextsWhole;
    CutKeeps(g.gname);
    forall i | 0 <= i < |g.items|
      ensures CutItems(g.items)[i] == g.items[i] <==> TextsWhole(g.items[i])
    {
      CutItemKeeps(g.items[i]);
    }
    if AllWhole(g) {
      assert CutItems(g.items) == g.items;
    }
  }

  /** A group reads back as itself exactly when no text of it holds a zero byte. */
  lemma RoundTrip(g: Group)
    requires Fits(g)
    ensures FileOf(g).Some? && |FileOf(g).value| == FileSize(g)
    ensures ParseOf(FileOf(g).value) == Some(g) <==> AllWhole(g)
  {
    hide WithCheck, ParseOf, CutGroup, AllWhole, Fits;
    BuiltParses(g, (0x1_0000 - WordSum(WithCheck(g, 0)) % 0x1_0000) % 0x1_0000);
    CutGroupKeeps(g);
    Sized(g, (0x1_0000 - WordSum(WithCheck(g, 0)) % 0x1_0000) % 0x1_0000);
  }

  lemma Sized(g: Group, check: word)
    requires Fits(g)
    ensures |WithCheck(g, check)| == FileSize(g)
  {}

  // ---------------------------------------------------------------- the builder

  /** Bytes written over those at a place. */
  function Patch(body: seq<byte>, p: nat, s: seq<byte>): (r: seq<byte>)
    requires p + |s| <= |body|
    ensures |r| == |body|
  {
    body[..p] + s + body[p + |s|..]
  }

  lemma PatchIs(body: seq<byte>, a: seq<byte>, s: seq<byte>, b: seq<byte>, t: seq<byte>)
    requires body == a + s + b && |s| == |t|
    ensures Patch(body, |a|, t) == a + t + b
  {}

  lemma PackSize(ws: seq<word>)
    ensures |PackWords(ws)| == 2 * |ws|
  {}

  /** An item behind the body so far: its texts and icon first, then its numbers over the room left for
      them. Nothing when a number does not fit its field. */
  method AppendItem(body: seq<byte>, it: Item) returns (r: Option<seq<byte>>)
    ensures r.None? ==> !ItemNumbers(it) || |body| + 24 + TailSize(it) >= 0x1_0000
    ensures r.Some? ==> ItemNumbers(it) && |r.value| == |body| + 24 + TailSize(it)
    ensures r.Some? && |r.value| < 0x1_0000 ==> r.value == body + ItemBytes(it, |body|)
  {
    hide PackWords, Patch;
    var o := |body|;
    var room: seq<byte> := seq(24, _ => 0);
    var now := body + room;
    var pn := |now|;
    now := now + (it.name + [0]);
    var pc := |now|;
    now := now + (it.cmd + [0]);
    var pi := |now|;
    now := now + (it.iconpath + [0]);
    var ph := |now|;
    now := now + it.hdr;
    var pa := |now|;
    now := now + it.andp;
    var px := |now|;
    now := now + it.xorp;
    if !ItemNumbers(it) || |it.hdr| >= 0x1_0000 || |it.andp| >= 0x1_0000 || |it.xorp| >= 0x1_0000 || px >= 0x1_0000 {
      return None;
    }
    var ws: seq<word> := [Unsigned(it.x), Unsigned(it.y), it.icon, |it.hdr|, |it.andp|, |it.xorp|,
                          ph, pa, px, pn, pc, pi];
    NumbersOver(body, room, it, now, ws);
    r := Some(Patch(now, o, PackWords(ws)));
  }

  lemma NumbersOver(body: seq<byte>, room: seq<byte>, it: Item, now: seq<byte>, ws: seq<word>)
    requires |room| == 24 && |ws| == 12
    requires now == body + room + (it.name + [0]) + (it.cmd + [0]) + (it.iconpath + [0]) + it.hdr + it.andp + it.xorp
    ensures |now| == |body| + 24 + TailSize(it) && |PackWords(ws)| == 24
    ensures Patch(now, |body|, PackWords(ws)) == body + (PackWords(ws) + ItemTail(it))
  {
    hide PackWords, Patch;
    PackSize(ws);
    assert now == body + room + ItemTail(it);
    PatchIs(now, body, room, ItemTail(it), PackWords(ws));
  }

  lemma EndMore(items: seq<Item>, start: nat, k: nat)
    requires k < |items|
    ensures EndOf(items[..k + 1], start) == EndOf(items[..k], start) + 24 + TailSize(items[k])
    ensures EndOf(items[..k + 1], start) < 0x1_0000 ==>
      Offsets(items[..k + 1], start) == Offsets(items[..k], start) + [EndOf(items[..k], start)]
    ensures ItemsFit(items[..k + 1], start) ==>
      && ItemsFit(items[..k], start) && ItemNumbers(items[k])
      && ItemsBytes(items[..k + 1], start)
         == ItemsBytes(items[..k], start) + ItemBytes(items[k], EndOf(items[..k], start))
  {
    hide ItemBytes, TailSize, ItemNumbers;
    var more := items[..k + 1];
    assert more[..k] == items[..k];
    forall i | 0 <= i < k && ItemsFit(more, start)
      ensures ItemNumbers(items[..k][i])
    {
      assert more[i] == items[..k][i];
    }
  }

  /** What the builder has after some items: their bytes behind room for the header, and their offsets. */
  ghost predicate Building(room: seq<byte>, body: seq<byte>, offs: seq<nat>, items: seq<Item>, start: nat) {
    && |body| == EndOf(items, start)
    && (forall i :: 0 <= i < |items| ==> ItemNumbers(items[i]))
    && (|body| < 0x1_0000 ==> body == room + ItemsBytes(items, start) && offs == Offsets(items, start))
  }

  lemma BuildingStart(room: seq<byte>)
    ensures Building(room, room, [], [], |room|)
  {}

  lemma BuildingMore(room: seq<byte>, body: seq<byte>, offs: seq<nat>, items: seq<Item>, start: nat, k: nat,
                     body': seq<byte>)
    requires k < |items| && Building(room, body, offs, items[..k], start)
    requires ItemNumbers(items[k]) && |body'| == |body| + 24 + TailSize(items[k])
    requires |body'| < 0x1_0000 ==> body' == body + ItemBytes(items[k], |body|)
    ensures Building(room, body', offs + [|body|], items[..k + 1], start)
  {
    EndMore(items, start, k);
    hide ItemBytes, ItemsBytes, Offsets, TailSize, ItemNumbers, EndOf;
    assert forall i :: 0 <= i < k ==> items[..k + 1][i] == items[..k][i];
  }

  /** An item that cannot be written leaves a group that does not fit. */
  lemma Unfit(room: seq<byte>, body: seq<byte>, offs: seq<nat>, g: Group, i: nat)
    requires i < |g.items| && Building(room, body, offs, g.items[..i], ItemsStart(g))
    requires !ItemNumbers(g.items[i]) || |body| + 24 + TailSize(g.items[i]) >= 0x1_0000
    ensures !Fits(g)
  {
    EndMore(g.items, ItemsStart(g), i);
    EndBefore(g.items, ItemsStart(g), i + 1);
    hide ItemNumbers, TailSize, EndOf;
  }

  lemma BuildingEnds(room: seq<byte>, body: seq<byte>, offs: seq<nat>, g: Group)
    requires Building(room, body, offs, g.items, ItemsStart(g))
    ensures |body| == EndOf(g.items, ItemsStart(g))
    ensures Fits(g) <==> HeadFits(g) && Even(|body|) < 0x1_0000
    ensures Fits(g) ==> body == room + ItemsBytes(g.items, ItemsStart(g)) && offs == Offsets(g.items, ItemsStart(g))
  {}

  /** Header, offsets and checksum over the room left for them. */
  method Finish(g: Group, body: seq<byte>, offs: seq<word>, ghost back: seq<byte>) returns (f: seq<byte>)
    requires Fits(g) && offs == Offsets(g.items, ItemsStart(g))
    requires |body| == FileSize(g) && 34 + 2 * |g.items| <= |body| && body[34 + 2 * |g.items|..] == back
    requires back == (g.gname + [0]) + ItemsBytes(g.items, ItemsStart(g)) + Padding(g)
    ensures FileOf(g) == Some(f)
  {
    hide PackWords, Patch, HeadWords, Offsets, ItemsBytes, WordSum, EndOf, Padding, Fits, WithCheck, Le16;
    FitsEnd(g);
    var head := HeadWords(g);
    OffsetsSize(g.items, ItemsStart(g));
    PackSize(head);
    PackSize(offs);
    LeSize(0);
    var front := PMCC + Le16(0) + PackWords(head);
    f := Patch(body, 0, front);
    HeadOver(body, front, PackWords(offs), back);
    f := Patch(f, 34, PackWords(offs));
    PartsJoined(g, PackWords(offs), back);
    Sized(g, 0);
    var check := (0x1_0000 - WordSum(f) % 0x1_0000) % 0x1_0000;
    CheckOver(g, check);
    LeSize(check);
    f := Patch(f, 4, Le16(check));
  }

  lemma HeadOver(body: seq<byte>, front: seq<byte>, offs: seq<byte>, back: seq<byte>)
    requires |front| == 34 && 34 + |offs| <= |body| && body[34 + |offs|..] == back
    ensures Patch(Patch(body, 0, front), 34, offs) == front + offs + back
  {
    hide Patch;
    PatchIs(body, [], body[..34], body[34..], front);
    assert body[34..] == body[34..34 + |offs|] + back;
    PatchIs(Patch(body, 0, front), front, body[34..34 + |offs|], back, offs);
  }

  lemma PartsJoined(g: Group, offs: seq<byte>, back: seq<byte>)
    requires Fits(g)
    requires offs == PackWords(Offsets(g.items, ItemsStart(g)))
    requires back == (g.gname + [0]) + ItemsBytes(g.items, ItemsStart(g)) + Padding(g)
    ensures (PMCC + Le16(0) + PackWords(HeadWords(g))) + offs + back == WithCheck(g, 0)
  {
    hide PackWords, HeadWords, Offsets, ItemsBytes, Padding, Le16, Fits, EndOf;
  }

  lemma CheckOver(g: Group, check: word)
    requires Fits(g) && |WithCheck(g, 0)| >= 6 && |Le16(check)| == 2
    ensures Patch(WithCheck(g, 0), 4, Le16(check)) == WithCheck(g, check)
  {
    hide Patch, Rest, Fits, Le16;
    LeSize(0);
    PatchIs(WithCheck(g, 0), PMCC, Le16(0), Rest(g), Le16(check));
  }

  lemma FitsEnd(g: Group)
    requires Fits(g)
    ensures EndOf(g.items, ItemsStart(g)) < 0x1_0000
  {}

  lemma OffsetsSize(items: seq<Item>, start: nat)
    requires EndOf(items, start) < 0x1_0000
    ensures |Offsets(items, start)| == |items|
  {}

  lemma PaddingIs(g: Group)
    ensures Padding(g) == if EndOf(g.items, ItemsStart(g)) % 2 == 0 then [] else [0]
  {}

  /** Lays a group out: the items behind room for the header, and then header, offsets and checksum into
      that room. */
  method Build(g: Group) returns (r: Option<seq<byte>>)
    ensures r == FileOf(g)
  {
    hide PackWords, Patch, HeadWords, Offsets, ItemsBytes, WordSum, EndOf, WithCheck, Building, ItemNumbers;
    var n := |g.items|;
    var body: seq<byte> := seq(34 + 2 * n, _ => 0);
    var offs: seq<nat> := [];
    body := body + (g.gname + [0]);
    ghost var room := body;
    BuildingStart(room);
    assert g.items[..0] == [];
    var i: nat := 0;
    while i < n
      invariant i <= n && Building(room, body, offs, g.items[..i], ItemsStart(g))
    {
      var next := AppendItem(body, g.items[i]);
      if next == None {
        Unfit(room, body, offs, g, i);
        return None;
      }
      BuildingMore(room, body, offs, g.items, ItemsStart(g), i, next.value);
      offs := offs + [|body|];
      body := next.value;
      i := i + 1;
    }
    assert g.items[..n] == g.items;
    BuildingEnds(room, body, offs, g);
    PaddingIs(g);
    ghost var whole := body;
    if |body| % 2 == 1 {
      body := body + [0];
    }
    if !HeadFits(g) || |body| >= 0x1_0000 {
      return None;
    }
    assert whole == room + ItemsBytes(g.items, ItemsStart(g));
    assert body == whole + Padding(g);
    assert body[34 + 2 * n..] == (g.gname + [0]) + ItemsBytes(g.items, ItemsStart(g)) + Padding(g);
    var f := Finish(g, body, offs, body[34 + 2 * n..]);
    r := Some(f);
  }

  // ---------------------------------------------------------------- the file, field by field

  /** A word that stands for a signed number. */
  predicate Says(f: seq<byte>, p: nat, v: int) {
    p + 2 <= |f| && (ReadLe16(f, p) == v || ReadLe16(f, p) == v + 0x1_0000)
  }

  lemma UnsignedSays(f: seq<byte>, p: nat, v: int)
    requires Short(v) && p + 2 <= |f| && ReadLe16(f, p) == Unsigned(v)
    ensures Says(f, p, v)
  {
    hide ReadLe16;
  }

  /** The header of a file: its magic and length, its group's numbers, where the group's name is, and how many
      items there are. */
  ghost predicate HeadSaid(f: seq<byte>, g: Group) {
    && |f| >= 34 && |f| % 2 == 0
    && f[..4] == [0x50, 0x4D, 0x43, 0x43] && ReadLe16(f, 6) == |f| && ReadLe16(f, 8) == g.ncmd
    && Says(f, 10, g.rc.left) && Says(f, 12, g.rc.top) && Says(f, 14, g.rc.right) && Says(f, 16, g.rc.bottom)
    && Says(f, 18, g.minX) && Says(f, 20, g.minY)
    && HeldAt(f, ReadLe16(f, 22), g.gname + [0])
    && ReadLe16(f, 24) == g.cx && ReadLe16(f, 26) == g.cy && ReadLe16(f, 28) == g.fmt
    && ReadLe16(f, 30) == 0 && ReadLe16(f, 32) == |g.items|
  }

  /** An item at a place: its numbers, and its icon and texts where they point. */
  ghost predicate ItemSaid(f: seq<byte>, o: nat, it: Item) {
    && o + 24 <= |f|
    && Says(f, o, it.x) && Says(f, o + 2, it.y) && ReadLe16(f, o + 4) == it.icon
    && ReadLe16(f, o + 6) == |it.hdr| && ReadLe16(f, o + 8) == |it.andp| && ReadLe16(f, o + 10) == |it.xorp|
    && HeldAt(f, ReadLe16(f, o + 12), it.hdr)
    && HeldAt(f, ReadLe16(f, o + 14), it.andp)
    && HeldAt(f, ReadLe16(f, o + 16), it.xorp)
    && HeldAt(f, ReadLe16(f, o + 18), it.name + [0])
    && HeldAt(f, ReadLe16(f, o + 20), it.cmd + [0])
    && HeldAt(f, ReadLe16(f, o + 22), it.iconpath + [0])
  }

  lemma ItemStands(f: seq<byte>, o: nat, it: Item)
    requires ItemNumbers(it) && o + 24 + TailSize(it) < 0x1_0000 && HeldAt(f, o, ItemBytes(it, o))
    ensures ItemSaid(f, o, it)
  {
    hide PackWords, ItemTail, HeldAt, ReadLe16, Unsigned, Says;
    Parts(f, o, PackWords(ItemWords(it, o)), ItemTail(it));
    PackSize(ItemWords(it, o));
    ItemWordsHere(f, o, it);
    TailParts(f, o + 24, it);
    UnsignedSays(f, o, it.x);
    UnsignedSays(f, o + 2, it.y);
  }

  lemma {:induction false} ItemsStand(f: seq<byte>, items: seq<Item>, start: nat, k: nat)
    requires ItemsFit(items, start) && HeldAt(f, start, ItemsBytes(items, start)) && k < |items|
    ensures EndOf(items[..k], start) + 24 + TailSize(items[k]) < 0x1_0000 && ItemNumbers(items[k])
    ensures HeldAt(f, EndOf(items[..k], start), ItemBytes(items[k], EndOf(items[..k], start)))
    decreases |items|
  {
    hide ItemBytes, HeldAt, ItemsFit, EndOf, ItemsBytes, TailSize, ItemNumbers, Offsets;
    var n := |items| - 1;
    ItemsUnfold(items, start);
    BytesEnd(items[..n], start);
    Parts(f, start, ItemsBytes(items[..n], start), ItemBytes(items[n], EndOf(items[..n], start)));
    if k < n {
      ItemsStand(f, items[..n], start, k);
      assert items[..n][..k] == items[..k];
    }
  }

  lemma FitsItems(g: Group)
    requires Fits(g)
    ensures ItemsFit(g.items, ItemsStart(g)) && FileSize(g) % 2 == 0
  {
    hide ItemNumbers, HeadFits, EndOf;
  }

  /** A built file holds the group field by field; its words sum to zero; its item `k` is at the offset in
      slot `k`. */
  lemma FileSaid(g: Group, k: nat)
    requires Fits(g)
    ensures FileOf(g).Some? && HeadSaid(FileOf(g).value, g) && WordSum(FileOf(g).value) % 0x1_0000 == 0
    ensures k < |g.items| ==>
      34 + 2 * k + 2 <= |FileOf(g).value|
      && ItemSaid(FileOf(g).value, ReadLe16(FileOf(g).value, 34 + 2 * k), g.items[k])
  {
    hide HeldAt, PackWords, HeadWords, Offsets, ItemsBytes, ReadLe16, Unsigned, Says, EndOf, Fits, ItemsFit, WithCheck;
    hide ItemSaid, WordSum, FileSize, ItemBytes, TailSize, ItemNumbers;
    var check := (0x1_0000 - WordSum(WithCheck(g, 0)) % 0x1_0000) % 0x1_0000;
    var f, start := WithCheck(g, check), ItemsStart(g);
    WordsSumToZero(g);
    Sized(g, check);
    FitsItems(g);
    FileParts(g, check);
    HeadHere(f, g);
    HeadSays(f, g);
    OffsetsHere(f, g);
    if k < |g.items| {
      FitsEnd(g);
      OffsetAt(g.items, start, k);
      assert WordIs(f, 34 + 2 * k, Offsets(g.items, start)[k]);
      ItemsStand(f, g.items, start, k);
      ItemStands(f, EndOf(g.items[..k], start), g.items[k]);
    }
  }

  lemma HeadSays(f: seq<byte>, g: Group)
    requires Fits(g) && HeldAt(f, 6, PackWords(HeadWords(g)))
    ensures |f| >= 34
    ensures Says(f, 10, g.rc.left) && Says(f, 12, g.rc.top) && Says(f, 14, g.rc.right) && Says(f, 16, g.rc.bottom)
    ensures Says(f, 18, g.minX) && Says(f, 20, g.minY)
  {
    hide HeldAt, PackWords, HeadWords, ReadLe16, Unsigned, Says, EndOf;
    HeadHere(f, g);
    UnsignedSays(f, 10, g.rc.left);
    UnsignedSays(f, 12, g.rc.top);
    UnsignedSays(f, 14, g.rc.right);
    UnsignedSays(f, 16, g.rc.bottom);
    UnsignedSays(f, 18, g.minX);
    UnsignedSays(f, 20, g.minY);
  }

  /** How many bytes a group takes. */
  function Total(items: seq<Item>): nat {
    if items == [] then 0
    else
      var it := items[|items| - 1];
      Total(items[..|items| - 1]) + 24 + |it.name| + |it.cmd| + |it.iconpath| + 3 + |it.hdr| + |it.andp| + |it.xorp|
  }

  lemma {:induction false} EndIsTotal(items: seq<Item>, start: nat)
    ensures EndOf(items, start) == start + Total(items)
  {
    if items != [] {
      EndIsTotal(items[..|items| - 1], start);
    }
  }

  /** Building succeeds exactly when every number fits its field and the file's length does. */
  lemma BuildsExactly(g: Group)
    ensures FileOf(g).Some? <==>
            && g.ncmd < 65536 && g.cx < 65536 && g.cy < 65536 && g.fmt < 65536
            && -32768 <= g.rc.left < 32768 && -32768 <= g.rc.top < 32768
            && -32768 <= g.rc.right < 32768 && -32768 <= g.rc.bottom < 32768
            && -32768 <= g.minX < 32768 && -32768 <= g.minY < 32768
            && (forall i :: 0 <= i < |g.items| ==>
                  && -32768 <= g.items[i].x < 32768 && -32768 <= g.items[i].y < 32768 && g.items[i].icon < 65536)
            && 35 + 2 * |g.items| + |g.gname| + Total(g.items) < 65535
  {
    hide WithCheck, EndOf, Total;
    EndIsTotal(g.items, ItemsStart(g));
  }

  /** A slot whose offset is 0 holds no item; any other holds the one at its offset, and if there is none the
      whole file is refused. */
  lemma {:induction false} SlotsRead(g: seq<byte>, n: nat)
    requires 34 + 2 * n <= |g|
    ensures ParseItems(g, n).Some? <==>
            forall k :: 0 <= k < n && ReadLe16(g, 34 + 2 * k) != 0 ==> ParseItem(g, ReadLe16(g, 34 + 2 * k)).Some?
    ensures ParseItems(g, n).Some? ==> ParseItems(g, n).value == Filled(g, n)
  {
    hide ParseItem, ReadLe16;
    if n > 0 {
      SlotsRead(g, n - 1);
    }
  }

  /** The items of the slots that are not empty, in the order of the slots. */
  function Filled(g: seq<byte>, n: nat): seq<Item>
    requires 34 + 2 * n <= |g|
  {
    if n == 0 then []
    else
      var o := ReadLe16(g, 34 + 2 * (n - 1));
      var it := ParseItem(g, o);
      Filled(g, n - 1) + if o == 0 || it.None? then [] else [it.value]
  }

  /** A piece of a file that runs past its end is what there is of it. */
  lemma SliceSays(g: seq<byte>, p: nat, n: nat)
    ensures |Slice(g, p, n)| == if p >= |g| then 0 else if p + n > |g| then |g| - p else n
    ensures forall i :: 0 <= i < |Slice(g, p, n)| ==> Slice(g, p, n)[i] == g[p + i]
  {}

  /** Which files are read: those with the magic, a header, as many slots as it says, an item or nothing in each,
      and a name that ends. */
  lemma ReadsExactly(g: seq<byte>)
    ensures ParseOf(g).Some? <==>
            && |g| >= 34 && g[..4] == [0x50, 0x4D, 0x43, 0x43] && 34 + 2 * ReadLe16(g, 32) <= |g|
            && (forall k :: 0 <= k < ReadLe16(g, 32) && ReadLe16(g, 34 + 2 * k) != 0 ==>
                  ParseItem(g, ReadLe16(g, 34 + 2 * k)).Some?)
            && (exists end :: ReadLe16(g, 22) <= end < |g| && g[end] == 0)
  {
    hide ParseItem, ReadLe16, ParseItems;
    if |g| >= 34 && 34 + 2 * ReadLe16(g, 32) <= |g| {
      SlotsRead(g, ReadLe16(g, 32));
    }
    if |g| >= 34 {
      NulFound(g, ReadLe16(g, 22));
    }
  }

  lemma {:induction false} NulFound(g: seq<byte>, off: nat)
    ensures NulFrom(g, off).Some? <==> exists end :: off <= end < |g| && g[end] == 0
    decreases |g| - off
  {
    if off < |g| && g[off] != 0 {
      NulFound(g, off + 1);
    }
  }
}
