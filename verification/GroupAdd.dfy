/**
 Adding an item to a Program Manager group file (the add step of tools/grpadd.py), and when doing it twice
 is doing it once.
 */
module GroupAdd {
  import opened Bytes
  import opened Rects
  import opened GroupFile

  datatype Icon = Icon(hdr: seq<byte>, andp: seq<byte>, xorp: seq<byte>)

  /** The grid the items are laid out on, and the group window's size. */
  datatype Settings = Settings(cols: int, cellW: int, cellH: int, width: int, height: int)

  /** What is being added; `icon` is missing when no executable was named. */
  datatype Entry = Entry(name: seq<byte>, cmd: seq<byte>, icon: Option<Icon>)

  /** The case folding commands are compared under; any function of the text will do. */
  type Fold = seq<byte> -> seq<byte>

  /** Division as the builder's language does it, rounding down. */
  function FloorDiv(a: nat, b: int): int
    requires b != 0
  {
    var n: int := a;
    if b > 0 then n / b else (-n) / (-b)
  }

  function FloorMod(a: nat, b: int): int
    requires b != 0
  {
    a - b * FloorDiv(a, b)
  }

  function FirstWord(s: seq<byte>): (w: seq<byte>)
    ensures NulFree(s) ==> NulFree(w)
  {
    if s == [] || s[0] == 0x20 then [] else [s[0]] + FirstWord(s[1..])
  }

  function IconOf(it: Item): Icon { Icon(it.hdr, it.andp, it.xorp) }

  function Kept(items: seq<Item>, cmd: seq<byte>, fold: Fold): (kept: seq<Item>)
    ensures |kept| <= |items|
  {
    if items == [] then []
    else
      var n := |items| - 1;
      Kept(items[..n], cmd, fold) + if fold(items[n].cmd) != fold(cmd) then [items[n]] else []
  }

  function Place(it: Item, i: nat, s: Settings): Item
    requires s.cols != 0
  {
    it.(x := 12 + s.cellW * FloorMod(i, s.cols), y := 4 + s.cellH * FloorDiv(i, s.cols))
  }

  function Placed(items: seq<Item>, s: Settings): (placed: seq<Item>)
    requires s.cols != 0
    ensures |placed| == |items|
  {
    seq(|items|, i requires 0 <= i < |items| => Place(items[i], i, s))
  }

  function NewItem(e: Entry, icon: Icon): Item {
    Item(0, 0, 0, icon.hdr, icon.andp, icon.xorp, e.name, e.cmd, FirstWord(e.cmd))
  }

  /** The icon the new item gets: its own, or the first item's. */
  function IconFor(e: Entry, items: seq<Item>): Option<Icon> {
    if e.icon.Some? then e.icon else if items == [] then None else Some(IconOf(items[0]))
  }

  /** The group with the item added, or nothing when the step gives up. */
  function Added(g: Group, e: Entry, fold: Fold, s: Settings): Option<Group> {
    var icon := IconFor(e, g.items);
    if g.fmt != 0x0401 || g.cx != 32 || icon == None || s.cols == 0 then None
    else
      Some(g.(ncmd := 3, rc := Rect(0, 0, s.width, s.height),
              items := Placed(Kept(g.items, e.cmd, fold) + [NewItem(e, icon.value)], s)))
  }

  /** The whole step, from the file as it was to the file as it will be. */
  function AddOf(file: seq<byte>, e: Entry, fold: Fold, s: Settings): Option<seq<byte>> {
    var g := ParseOf(file);
    if g == None then None
    else
      var more := Added(g.value, e, fold, s);
      if more == None then None else FileOf(more.value)
  }

  // ---------------------------------------------------------------- the step

  method DropCommand(items: seq<Item>, cmd: seq<byte>, fold: Fold) returns (kept: seq<Item>)
    ensures kept == Kept(items, cmd, fold)
  {
    kept := [];
    var i := 0;
    while i < |items|
      invariant i <= |items| && kept == Kept(items[..i], cmd, fold)
    {
      assert items[..i + 1][..i] == items[..i];
      if fold(items[i].cmd) != fold(cmd) {
        kept := kept + [items[i]];
      }
      i := i + 1;
    }
    assert items[..i] == items;
  }

  method Reflow(items: seq<Item>, s: Settings) returns (placed: seq<Item>)
    requires s.cols != 0
    ensures placed == Placed(items, s)
  {
    hide Place;
    placed := items;
    var i := 0;
    while i < |items|
      invariant i <= |items| == |placed|
      invariant forall k :: 0 <= k < i ==> placed[k] == Place(items[k], k, s)
      invariant forall k :: i <= k < |items| ==> placed[k] == items[k]
    {
      placed := placed[i := Place(placed[i], i, s)];
      i := i + 1;
    }
    assert forall k :: 0 <= k < |items| ==> placed[k] == Placed(items, s)[k];
  }

  /** Adds an item to a file, or replaces the one with the same command; nothing when the step gives up. */
  method AddItem(file: seq<byte>, e: Entry, fold: Fold, s: Settings) returns (r: Option<seq<byte>>)
    ensures r == AddOf(file, e, fold, s)
  {
    hide ParseOf, FileOf, Placed, Kept, Fits, FirstWord;
    var g := Parse(file);
    if g == None || g.value.fmt != 0x0401 || g.value.cx != 32 {
      return None;
    }
    var icon := IconFor(e, g.value.items);
    if icon == None || s.cols == 0 {
      return None;
    }
    var items := DropCommand(g.value.items, e.cmd, fold);
    items := Reflow(items + [NewItem(e, icon.value)], s);
    var more := g.value.(ncmd := 3, rc := Rect(0, 0, s.width, s.height), items := items);
    r := Build(more);
    if r.Some? {
      var again := Parse(r.value);
      BuiltFileParses(more);
      assert again.Some?;
    }
  }

  lemma BuiltFileParses(g: Group)
    requires FileOf(g).Some?
    ensures ParseOf(FileOf(g).value) == Some(CutGroup(g))
  {
    hide WithCheck, ParseOf, CutGroup;
    BuiltParses(g, (0x1_0000 - WordSum(WithCheck(g, 0)) % 0x1_0000) % 0x1_0000);
  }

  // ---------------------------------------------------------------- twice is once

  predicate AllOther(items: seq<Item>, cmd: seq<byte>, fold: Fold) {
    forall i :: 0 <= i < |items| ==> fold(items[i].cmd) != fold(cmd)
  }

  lemma {:induction false} KeptIsOther(items: seq<Item>, cmd: seq<byte>, fold: Fold)
    ensures AllOther(Kept(items, cmd, fold), cmd, fold)
    ensures AllOther(items, cmd, fold) ==> Kept(items, cmd, fold) == items
    decreases |items|
  {
    if items != [] {
      var n := |items| - 1;
      KeptIsOther(items[..n], cmd, fold);
      assert items == items[..n] + [items[n]];
    }
  }

  lemma KeptLast(items: seq<Item>, it: Item, cmd: seq<byte>, fold: Fold)
    requires AllOther(items, cmd, fold) && fold(it.cmd) == fold(cmd)
    ensures Kept(items + [it], cmd, fold) == items
  {
    assert (items + [it])[..|items|] == items;
    KeptIsOther(items, cmd, fold);
  }

  /** Laying out a laid-out list, with its last item put back unplaced, changes nothing. */
  lemma PlacedTwice(items: seq<Item>, it: Item, s: Settings)
    requires s.cols != 0
    ensures var once := Placed(items + [it], s);
      && |once| == |items| + 1
      && Placed(once[..|items|] + [it], s) == once
      && once[|items|] == Place(it, |items|, s)
      && forall i :: 0 <= i < |items| ==> once[i] == Place(items[i], i, s)
  {
    hide FloorDiv, FloorMod;
    var once := Placed(items + [it], s);
    assert forall i :: 0 <= i < |items| ==> Placed(once[..|items|] + [it], s)[i] == once[i];
  }

  /** Adding again to the group just made: the same icon gives the same group. */
  lemma AddedAgain(g: Group, e: Entry, fold: Fold, s: Settings)
    requires Added(g, e, fold, s).Some?
    ensures var once, kept := Added(g, e, fold, s).value, Kept(g.items, e.cmd, fold);
      && once.items != []
      && (kept != [] ==> IconOf(once.items[0]) == IconOf(kept[0]))
      && (kept == [] ==> Some(IconOf(once.items[0])) == IconFor(e, g.items))
      && Added(once, e, fold, s)
         == if IconFor(e, once.items) == IconFor(e, g.items) then Some(once)
            else Some(once.(items := Placed(once.items[..|kept|] + [NewItem(e, IconFor(e, once.items).value)], s)))
  {
    hide Placed, Kept, Place, FirstWord;
    var once, kept := Added(g, e, fold, s).value, Kept(g.items, e.cmd, fold);
    var it := NewItem(e, IconFor(e, g.items).value);
    KeptIsOther(g.items, e.cmd, fold);
    PlacedTwice(kept, it, s);
    PlaceKeeps(kept, s);
    PlaceOne(it, |kept|, s);
    var front := once.items[..|kept|];
    assert once.items == front + [once.items[|kept|]];
    forall i | 0 <= i < |front|
      ensures fold(front[i].cmd) != fold(e.cmd)
    {
      PlaceOne(kept[i], i, s);
    }
    KeptLast(front, once.items[|kept|], e.cmd, fold);
  }

  lemma PlaceOne(it: Item, i: nat, s: Settings)
    requires s.cols != 0
    ensures Place(it, i, s).cmd == it.cmd && IconOf(Place(it, i, s)) == IconOf(it)
  {}

  lemma PlaceKeeps(items: seq<Item>, s: Settings)
    requires s.cols != 0
    ensures items != [] ==> IconOf(Place(items[0], 0, s)) == IconOf(items[0])
  {}

  lemma ParsedWhole(f: seq<byte>)
    requires ParseOf(f).Some?
    ensures AllWhole(ParseOf(f).value)
  {
    hide CStr, ParseItems, ReadLe16, TextsWhole, NulFree;
    WholeText(f, ReadLe16(f, 22));
    ItemsWhole(f, ReadLe16(f, 32));
  }

  lemma WholeText(f: seq<byte>, off: nat)
    ensures CStr(f, off).Some? ==> NulFree(CStr(f, off).value)
  {
    if NulFrom(f, off).Some? {
      NulFirst(f, off);
    }
  }

  lemma {:induction false} NulFirst(f: seq<byte>, off: nat)
    requires NulFrom(f, off).Some?
    ensures forall i :: off <= i < NulFrom(f, off).value ==> f[i] != 0
    decreases |f| - off
  {
    if f[off] != 0 {
      NulFirst(f, off + 1);
    }
  }

  lemma {:induction false} ItemsWhole(f: seq<byte>, n: nat)
    requires 34 + 2 * n <= |f| && ParseItems(f, n).Some?
    ensures forall i :: 0 <= i < |ParseItems(f, n).value| ==> TextsWhole(ParseItems(f, n).value[i])
  {
    hide CStr, TextsWhole, ReadLe16, ParseItem;
    if n > 0 {
      ItemsWhole(f, n - 1);
      var o := ReadLe16(f, 34 + 2 * (n - 1));
      if o != 0 {
        ItemWhole(f, o);
      }
    }
  }

  lemma ItemWhole(f: seq<byte>, o: nat)
    requires ParseItem(f, o).Some?
    ensures TextsWhole(ParseItem(f, o).value)
  {
    hide CStr, NulFree, Slice, ReadLe16, Signed;
    WholeText(f, ReadLe16(f, o + 18));
    WholeText(f, ReadLe16(f, o + 20));
    WholeText(f, ReadLe16(f, o + 22));
  }

  lemma {:induction false} KeptWhole(items: seq<Item>, cmd: seq<byte>, fold: Fold)
    requires forall i :: 0 <= i < |items| ==> TextsWhole(items[i])
    ensures forall i :: 0 <= i < |Kept(items, cmd, fold)| ==> TextsWhole(Kept(items, cmd, fold)[i])
    decreases |items|
  {
    hide TextsWhole;
    if items != [] {
      KeptWhole(items[..|items| - 1], cmd, fold);
    }
  }

  lemma AddedWhole(g: Group, e: Entry, fold: Fold, s: Settings)
    requires AllWhole(g) && NulFree(e.name) && NulFree(e.cmd) && Added(g, e, fold, s).Some?
    ensures AllWhole(Added(g, e, fold, s).value)
  {
    hide Kept, NulFree, FloorDiv, FloorMod, FirstWord;
    KeptWhole(g.items, e.cmd, fold);
    WordWhole(e.cmd);
    var kept, it := Kept(g.items, e.cmd, fold), NewItem(e, IconFor(e, g.items).value);
    forall i | 0 <= i < |kept + [it]|
      ensures TextsWhole(Placed(kept + [it], s)[i])
    {
      assert TextsWhole((kept + [it])[i]);
    }
  }

  lemma WordWhole(s: seq<byte>)
    requires NulFree(s)
    ensures NulFree(FirstWord(s))
  {}

  /** Adding the same entry twice is adding it once, exactly when it gets the same icon both times: always
      with an icon of its own, and with a borrowed one when the first item left standing has the icon of
      the item that was first. */
  lemma Idempotent(file: seq<byte>, e: Entry, fold: Fold, s: Settings)
    requires NulFree(e.name) && NulFree(e.cmd) && AddOf(file, e, fold, s).Some?
    ensures var g, once := ParseOf(file).value, AddOf(file, e, fold, s).value;
      var kept := Kept(g.items, e.cmd, fold);
      AddOf(once, e, fold, s) == Some(once)
      <==> e.icon.Some? || kept == [] || IconOf(kept[0]) == IconOf(g.items[0])
  {
    hide ParseOf, FileOf, Added, AllWhole, NulFree, Fits, IconOf, Kept;
    var g, once := ParseOf(file).value, AddOf(file, e, fold, s).value;
    var more := Added(g, e, fold, s).value;
    ParsedWhole(file);
    AddedWhole(g, e, fold, s);
    FileFits(more);
    RoundTrip(more);
    AddedAgain(g, e, fold, s);
    var twice := Added(more, e, fold, s).value;
    AddedWhole(more, e, fold, s);
    if FileOf(twice).Some? {
      FileFits(twice);
      RoundTrip(twice);
    }
    IconDiffers(g, e, fold, s);
  }

  lemma FileFits(g: Group)
    requires FileOf(g).Some?
    ensures Fits(g)
  {}

  /** A different icon makes a different group. */
  lemma IconDiffers(g: Group, e: Entry, fold: Fold, s: Settings)
    requires Added(g, e, fold, s).Some?
    ensures var once := Added(g, e, fold, s).value;
      var kept := Kept(g.items, e.cmd, fold);
      && once.items != []
      && (IconFor(e, once.items) == IconFor(e, g.items)
          <==> e.icon.Some? || kept == [] || IconOf(kept[0]) == IconOf(g.items[0]))
      && (Added(once, e, fold, s) == Some(once) <==> IconFor(e, once.items) == IconFor(e, g.items))
  {
    hide Kept, Placed, FirstWord, Place;
    AddedAgain(g, e, fold, s);
    var once, kept := Added(g, e, fold, s).value, Kept(g.items, e.cmd, fold);
    var icon := IconFor(e, once.items).value;
    PlacedTwice(kept, NewItem(e, IconFor(e, g.items).value), s);
    PlaceOne(NewItem(e, IconFor(e, g.items).value), |kept|, s);
    PlacedTwice(once.items[..|kept|], NewItem(e, icon), s);
    PlaceOne(NewItem(e, icon), |kept|, s);
  }

  /** Afterwards exactly one item has the command, the last; the others are those kept, in their order; and
      each item stands in the cell of its number. */
  lemma AddedOnce(g: Group, e: Entry, fold: Fold, s: Settings)
    requires Added(g, e, fold, s).Some?
    ensures var once, kept := Added(g, e, fold, s).value, Kept(g.items, e.cmd, fold);
      && |once.items| == |kept| + 1
      && (forall i :: 0 <= i < |once.items| ==> (fold(once.items[i].cmd) == fold(e.cmd) <==> i == |kept|))
      && (forall i :: 0 <= i < |kept| ==> once.items[i] == Place(kept[i], i, s))
      && once.items[|kept|] == Place(NewItem(e, IconFor(e, g.items).value), |kept|, s)
  {
    hide Kept, Placed, FirstWord, Place;
    var once, kept := Added(g, e, fold, s).value, Kept(g.items, e.cmd, fold);
    var it := NewItem(e, IconFor(e, g.items).value);
    KeptIsOther(g.items, e.cmd, fold);
    PlacedTwice(kept, it, s);
    PlaceOne(it, |kept|, s);
    forall i | 0 <= i < |kept|
      ensures fold(once.items[i].cmd) != fold(e.cmd)
    {
      PlaceOne(kept[i], i, s);
    }
  }

  /** What is kept of two lists is what is kept of each. */
  lemma {:induction false} KeptJoined(a: seq<Item>, b: seq<Item>, cmd: seq<byte>, fold: Fold)
    ensures Kept(a + b, cmd, fold) == Kept(a, cmd, fold) + Kept(b, cmd, fold)
    decreases |b|
  {
    hide Kept;
    KeptNone(cmd, fold);
    if b == [] {
      assert a + b == a;
    } else {
      var n := |b| - 1;
      KeptJoined(a, b[..n], cmd, fold);
      assert a + b == (a + b[..n]) + [b[n]];
      KeptMore(a + b[..n], b[n], cmd, fold);
      assert b == b[..n] + [b[n]];
      KeptMore(b[..n], b[n], cmd, fold);
    }
  }

  lemma KeptMore(items: seq<Item>, it: Item, cmd: seq<byte>, fold: Fold)
    ensures Kept(items + [it], cmd, fold) == Kept(items, cmd, fold) + if fold(it.cmd) != fold(cmd) then [it] else []
  {
    assert (items + [it])[..|items|] == items;
  }

  lemma KeptNone(cmd: seq<byte>, fold: Fold)
    ensures Kept([], cmd, fold) == []
  {}

  lemma KeptOne(it: Item, cmd: seq<byte>, fold: Fold)
    ensures Kept([it], cmd, fold) == if fold(it.cmd) == fold(cmd) then [] else [it]
  {
    assert [it][..0] == [];
  }

  /** The text up to its first space. */
  lemma {:induction false} FirstWordIs(s: seq<byte>)
    ensures FirstWord(s) <= s && forall i :: 0 <= i < |FirstWord(s)| ==> s[i] != 32
    ensures FirstWord(s) == s || s[|FirstWord(s)|] == 32
  {
    if s != [] && s[0] != 32 {
      FirstWordIs(s[1..]);
    }
  }

  /** What the step makes of a group: everything it writes down, and everything it leaves. */
  lemma AddedSays(g: Group, e: Entry, fold: Fold, s: Settings)
    ensures Added(g, e, fold, s).Some? <==>
            g.fmt == 0x0401 && g.cx == 32 && s.cols != 0 && (e.icon.Some? || g.items != [])
    ensures Added(g, e, fold, s).Some? && s.cols > 0 ==>
      var once := Added(g, e, fold, s).value;
      && once.(rc := g.rc, ncmd := g.ncmd, items := g.items) == g
      && once.ncmd == 3 && once.rc == Rect(0, 0, s.width, s.height)
      && once.items != [] && (forall i: nat :: i < |once.items| ==>
            once.items[i].x == 12 + s.cellW * (i % s.cols) && once.items[i].y == 4 + s.cellH * (i / s.cols))
      && (var it := once.items[|once.items| - 1];
          && it.icon == 0 && it.name == e.name && it.cmd == e.cmd && it.iconpath == FirstWord(e.cmd)
          && (e.icon.Some? ==> Icon(it.hdr, it.andp, it.xorp) == e.icon.value)
          && (e.icon.None? ==>
                it.hdr == g.items[0].hdr && it.andp == g.items[0].andp && it.xorp == g.items[0].xorp))
  {
    hide Kept, FirstWord, FloorDiv, FloorMod;
    if s.cols > 0 {
      forall i: nat
        ensures FloorDiv(i, s.cols) == i / s.cols && FloorMod(i, s.cols) == i % s.cols
      {
        Floored(i, s.cols);
      }
    }
  }

  lemma Floored(i: nat, n: nat)
    requires n > 0
    ensures FloorDiv(i, n) == i / n && FloorMod(i, n) == i % n
  {}

  lemma TimesApart(c: int, a: int, b: int)
    requires c != 0 && a != b
    ensures c * a != c * b
  {
    var d := a - b;
    assert c * a - c * b == c * d;
    NotZero(c, d);
  }

  lemma NotZero(c: int, d: int)
    requires c != 0 && d != 0
    ensures c * d != 0
  {}

  /** No two numbers have the same cell, on a grid whose cells have width and height. */
  lemma CellsApart(a: Item, i: nat, b: Item, j: nat, s: Settings)
    requires s.cols != 0 && s.cellW != 0 && s.cellH != 0 && i != j
    ensures (Place(a, i, s).x, Place(a, i, s).y) != (Place(b, j, s).x, Place(b, j, s).y)
  {
    hide FloorDiv;
    if FloorDiv(i, s.cols) != FloorDiv(j, s.cols) {
      TimesApart(s.cellH, FloorDiv(i, s.cols), FloorDiv(j, s.cols));
    } else {
      TimesApart(s.cellW, FloorMod(i, s.cols), FloorMod(j, s.cols));
    }
  }

  /** A group of two whose first item is replaced by one that borrows its icon: done again, the step
      borrows the other's. */
  lemma BorrowedTwice(g: Group, a: Item, b: Item, e: Entry, fold: Fold, s: Settings)
    requires g.items == [a, b] && Fits(g) && AllWhole(g) && NulFree(e.name) && NulFree(e.cmd)
    requires e.icon.None? && fold(a.cmd) == fold(e.cmd) != fold(b.cmd) && IconOf(a) != IconOf(b)
    requires Added(g, e, fold, s).Some? && Fits(Added(g, e, fold, s).value)
    ensures FileOf(g).Some? && AddOf(FileOf(g).value, e, fold, s).Some?
    ensures AddOf(AddOf(FileOf(g).value, e, fold, s).value, e, fold, s) != AddOf(FileOf(g).value, e, fold, s)
  {
    hide FileOf, ParseOf, Fits, AllWhole, Added, NulFree, IconOf;
    RoundTrip(g);
    KeptOfTwo(a, b, e.cmd, fold);
    RoundTrip(Added(g, e, fold, s).value);
    Idempotent(FileOf(g).value, e, fold, s);
  }

  const FIRST := Item(0, 0, 0, [1], [], [], [65], [65], [65])
  const SECOND := Item(0, 0, 0, [2], [], [], [66], [66], [66])
  const PAIR := Group(3, Rect(0, 0, 0, 0), 0, 0, [71], 32, 32, 0x0401, [FIRST, SECOND])
  const PHONE := Settings(3, 100, 78, 344, 460)

  /** Such a group. */
  lemma BorrowedTwiceHere(fold: Fold)
    requires fold([65]) != fold([66])
    ensures var e := Entry([65], [65], None);
      && FileOf(PAIR).Some? && AddOf(FileOf(PAIR).value, e, fold, PHONE).Some?
      && AddOf(AddOf(FileOf(PAIR).value, e, fold, PHONE).value, e, fold, PHONE)
         != AddOf(FileOf(PAIR).value, e, fold, PHONE)
  {
    hide FileOf, ParseOf, Fits, AllWhole, AddOf, Added, Place;
    var e := Entry([65], [65], None);
    TwoAdded(PAIR, FIRST, SECOND, e, fold, PHONE);
    SmallFits(PAIR, FIRST, SECOND);
    PlacedNumbers(e);
    SmallFits(Added(PAIR, e, fold, PHONE).value, Place(SECOND, 0, PHONE), Place(NewItem(e, IconOf(FIRST)), 1, PHONE));
    BorrowedTwice(PAIR, FIRST, SECOND, e, fold, PHONE);
  }

  lemma PlacedNumbers(e: Entry)
    requires e == Entry([65], [65], None)
    ensures var a, b := Place(SECOND, 0, PHONE), Place(NewItem(e, IconOf(FIRST)), 1, PHONE);
      && ItemNumbers(a) && TailSize(a) <= 100 && TextsWhole(a)
      && ItemNumbers(b) && TailSize(b) <= 100 && TextsWhole(b)
  {
    hide Place, NewItem, FirstWord, IconOf;
    PlacedHere(e);
    Small(Item(12, 4, 0, [2], [], [], [66], [66], [66]), 66);
    Small(Item(112, 4, 0, [1], [], [], [65], [65], [65]), 65);
  }

  lemma Small(it: Item, c: byte)
    requires c != 0 && it.name == [c] && it.cmd == [c] && it.iconpath == [c]
    requires |it.hdr| == 1 && it.andp == [] && it.xorp == [] && it.icon == 0
    requires 0 <= it.x < 200 && 0 <= it.y < 200
    ensures ItemNumbers(it) && TailSize(it) <= 100 && TextsWhole(it)
  {}

  lemma PlacedHere(e: Entry)
    requires e == Entry([65], [65], None)
    ensures Place(SECOND, 0, PHONE) == Item(12, 4, 0, [2], [], [], [66], [66], [66])
    ensures Place(NewItem(e, IconOf(FIRST)), 1, PHONE) == Item(112, 4, 0, [1], [], [], [65], [65], [65])
  {
    hide FloorDiv, FloorMod, FirstWord;
    FirstCells();
    OneLetter(65);
  }

  lemma FirstCells()
    ensures FloorDiv(0, 3) == 0 && FloorDiv(1, 3) == 0 && FloorMod(0, 3) == 0 && FloorMod(1, 3) == 1
  {}

  lemma OneLetter(c: byte)
    requires c != 0x20
    ensures FirstWord([c]) == [c]
  {
    assert [c][1..] == [];
  }

  lemma TwoAdded(g: Group, a: Item, b: Item, e: Entry, fold: Fold, s: Settings)
    requires g.items == [a, b] && g.fmt == 0x0401 && g.cx == 32 && s.cols != 0
    requires e.icon.None? && fold(a.cmd) == fold(e.cmd) != fold(b.cmd)
    ensures Added(g, e, fold, s)
         == Some(g.(ncmd := 3, rc := Rect(0, 0, s.width, s.height),
                    items := [Place(b, 0, s), Place(NewItem(e, IconOf(a)), 1, s)]))
  {
    hide Place, Placed, Kept;
    KeptOfTwo(a, b, e.cmd, fold);
    TwoPlaced(b, NewItem(e, IconOf(a)), s);
  }

  lemma KeptOfTwo(a: Item, b: Item, cmd: seq<byte>, fold: Fold)
    requires fold(a.cmd) == fold(cmd) != fold(b.cmd)
    ensures Kept([a, b], cmd, fold) == [b]
  {
    assert [a, b][..1] == [a] && [a][..0] == [];
  }

  lemma TwoPlaced(a: Item, b: Item, s: Settings)
    requires s.cols != 0
    ensures Placed([a] + [b], s) == [Place(a, 0, s), Place(b, 1, s)]
  {}

  lemma SmallFits(g: Group, a: Item, b: Item)
    requires g.items == [a, b] && HeadFits(g) && |g.gname| == 1 && NulFree(g.gname)
    requires ItemNumbers(a) && TailSize(a) <= 100 && TextsWhole(a)
    requires ItemNumbers(b) && TailSize(b) <= 100 && TextsWhole(b)
    ensures Fits(g) && AllWhole(g)
  {
    hide TailSize, ItemNumbers, HeadFits, TextsWhole, NulFree;
    var start := ItemsStart(g);
    assert [a, b][..1] == [a] && [a][..0] == [];
    assert EndOf([], start) == start;
    assert EndOf([a], start) == start + 24 + TailSize(a);
    assert EndOf([a, b], start) == start + 24 + TailSize(a) + 24 + TailSize(b);
  }
}
