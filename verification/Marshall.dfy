/**
 The 9P marshaller (v86/lib/marshall.js): values laid out by a list of types, and read back by it.
 */
module Marshall {
  import opened Bytes

  /** w, d, h, b, s and Q; any other letter is passed over. */
  datatype Type = Word | Double | Half | Octet | Text | QidType | Other

  /** A number, the bytes of a text, or the three parts of a file's identity. */
  datatype Value = Num(n: int) | Str(bytes: seq<byte>) | Qid(kind: int, version: int, path: int)

  // ---------------------------------------------------------------- numbers

  /** A number cut to so many bits, as the bit operators cut it. */
  function Wrap(n: int, modulus: nat): (r: nat)
    requires modulus > 0
    ensures r < modulus
  {
    n % modulus
  }

  function Low32(n: int): nat { Wrap(n, 0x1_0000_0000) }
  function Low16(n: int): nat { Wrap(n, 0x1_0000) }
  function Low8(n: int): nat { Wrap(n, 0x100) }

  const ZEROS: seq<byte> := [0, 0, 0, 0]

  function WordBytes(n: int): (s: seq<byte>)
    ensures |s| == 4
  {
    [Low8(n), Low8(n / 0x100), Low8(n / 0x1_0000), Low8(n / 0x100_0000)]
  }

  lemma Digits(n: int)
    ensures Low8(n) + 256 * Low8(n / 0x100) == Low16(n)
    ensures Low16(n) + 65536 * Low8(n / 0x1_0000) + 16777216 * Low8(n / 0x100_0000) == Low32(n)
  {
    assert n / 0x100 == (n / 0x1_0000) * 0x100 + Low8(n / 0x100);
    assert n / 0x1_0000 == (n / 0x100_0000) * 0x100 + Low8(n / 0x1_0000);
    assert n / 0x100_0000 == (n / 0x1_0000_0000) * 0x100 + Low8(n / 0x100_0000);
  }

  /** A word is its four bytes, least first. */
  lemma WordIsLe(n: int)
    ensures WordBytes(n) == Le32(Low32(n))
  {
    Digits(n);
    var b0: nat, b1: nat, b2: nat, b3: nat := Low8(n), Low8(n / 0x100), Low8(n / 0x1_0000), Low8(n / 0x100_0000);
    hide Wrap;
    FourDigits(Low32(n), b0, b1, b2, b3);
  }

  lemma FourDigits(m: nat, b0: nat, b1: nat, b2: nat, b3: nat)
    requires b0 < 256 && b1 < 256 && b2 < 256 && b3 < 256
    requires m == b0 + 256 * b1 + 65536 * b2 + 16777216 * b3
    ensures m < 0x1_0000_0000 && Le32(m) == [b0, b1, b2, b3]
  {
    assert m / 16777216 == b3;
    assert m / 65536 == b2 + 256 * b3;
    assert m / 256 == b1 + 256 * (b2 + 256 * b3);
  }

  // ---------------------------------------------------------------- layouts

  predicate Fits(t: Type, v: Value) {
    match t
    case Text => v.Str?
    case QidType => v.Qid?
    case Other => true
    case _ => v.Num?
  }

  predicate Typed(ts: seq<Type>, vs: seq<Value>) {
    |ts| == |vs| && forall i :: 0 <= i < |ts| ==> Fits(ts[i], vs[i])
  }

  function OneBytes(t: Type, v: Value): seq<byte>
    requires Fits(t, v)
  {
    match t
    case Word => WordBytes(v.n)
    case Double => WordBytes(v.n) + ZEROS
    case Half => [Low8(v.n), Low8(v.n / 0x100)]
    case Octet => [Low8(v.n)]
    case Text => [Low8(|v.bytes|), Low8(|v.bytes| / 0x100)] + v.bytes
    case QidType => [Low8(v.kind)] + WordBytes(v.version) + WordBytes(v.path) + ZEROS
    case Other => []
  }

  function AllBytes(ts: seq<Type>, vs: seq<Value>): seq<byte>
    requires Typed(ts, vs)
  {
    if ts == [] then []
    else
      var n := |ts| - 1;
      AllBytes(ts[..n], vs[..n]) + OneBytes(ts[n], vs[n])
  }

  /** A value and the offset after it. */
  datatype Got = Got(v: Value, next: nat)

  function GetNum(s: seq<byte>, o: nat, width: nat, bytes: nat): Option<Got>
    requires width == 1 || width == 2 || width == 4
    requires bytes >= width
  {
    if o + bytes > |s| then None
    else Some(Got(Num(if width == 1 then s[o] else if width == 2 then ReadLe16(s, o) else ReadLe32(s, o)), o + bytes))
  }

  function GetOne(t: Type, s: seq<byte>, o: nat): Option<Got>
    requires t != Other
  {
    match t
    case Word => GetNum(s, o, 4, 4)
    case Double => GetNum(s, o, 4, 8)
    case Half => GetNum(s, o, 2, 2)
    case Octet => GetNum(s, o, 1, 1)
    case Text =>
      if o + 2 > |s| || o + 2 + ReadLe16(s, o) > |s| then None
      else Some(Got(Str(s[o + 2..o + 2 + ReadLe16(s, o)]), o + 2 + ReadLe16(s, o)))
    case QidType =>
      if o + 13 > |s| then None
      else Some(Got(Qid(s[o], ReadLe32(s, o + 1), ReadLe32(s, o + 5)), o + 13))
  }

  /** The values read, and the offset after them; nothing when they run off the end. */
  function GetAll(ts: seq<Type>, s: seq<byte>, o: nat): Option<(seq<Value>, nat)> {
    if ts == [] then Some(([], o))
    else
      var n := |ts| - 1;
      var before := GetAll(ts[..n], s, o);
      if before == None || ts[n] == Other then before
      else
        var one := GetOne(ts[n], s, before.value.1);
        if one == None then None else Some((before.value.0 + [one.value.v], one.value.next))
  }

  // ---------------------------------------------------------------- reading back

  predicate ShortText(v: Value) { v.Str? ==> |v.bytes| < 0x1_0000 }

  /** What comes back for a value: itself cut to its type's width. */
  function Narrow(t: Type, v: Value): Value
    requires Fits(t, v)
  {
    match t
    case Word => Num(Low32(v.n))
    case Double => Num(Low32(v.n))
    case Half => Num(Low16(v.n))
    case Octet => Num(Low8(v.n))
    case QidType => Qid(Low8(v.kind), Low32(v.version), Low32(v.path))
    case _ => v
  }

  function NarrowAll(ts: seq<Type>, vs: seq<Value>): (r: seq<Value>)
    requires Typed(ts, vs)
    ensures |r| == |vs|
    ensures forall i :: 0 <= i < |vs| ==> r[i] == Narrow(ts[i], vs[i])
  {
    if ts == [] then []
    else
      var n := |ts| - 1;
      NarrowAll(ts[..n], vs[..n]) + [Narrow(ts[n], vs[n])]
  }

  predicate InRange(t: Type, v: Value)
    requires Fits(t, v)
  {
    match t
    case Word => 0 <= v.n < 0x1_0000_0000
    case Double => 0 <= v.n < 0x1_0000_0000
    case Half => 0 <= v.n < 0x1_0000
    case Octet => 0 <= v.n < 0x100
    case QidType => 0 <= v.kind < 0x100 && 0 <= v.version < 0x1_0000_0000 && 0 <= v.path < 0x1_0000_0000
    case _ => true
  }

  lemma WordHere(s: seq<byte>, o: nat, n: int)
    requires HeldAt(s, o, WordBytes(n))
    ensures o + 4 <= |s| && ReadLe32(s, o) == Low32(n)
  {
    WordIsLe(n);
    Le32Back(s, o, Low32(n));
  }

  lemma HalfHere(s: seq<byte>, o: nat, n: int)
    requires HeldAt(s, o, [Low8(n), Low8(n / 0x100)])
    ensures o + 2 <= |s| && ReadLe16(s, o) == Low16(n)
  {
    Digits(n);
    assert s[o] == s[o..o + 2][0] && s[o + 1] == s[o..o + 2][1];
    hide Wrap;
  }

  lemma OneBack(t: Type, v: Value, s: seq<byte>, o: nat)
    requires t != Other && Fits(t, v) && ShortText(v) && HeldAt(s, o, OneBytes(t, v))
    ensures GetOne(t, s, o) == Some(Got(Narrow(t, v), o + |OneBytes(t, v)|))
  {
    hide WordBytes, ReadLe16, ReadLe32, Wrap;
    match t
    case Word => WordHere(s, o, v.n);
    case Double =>
      Parts(s, o, WordBytes(v.n), ZEROS);
      WordHere(s, o, v.n);
    case Half => HalfHere(s, o, v.n);
    case Octet => assert s[o] == s[o..o + 1][0];
    case Text =>
      Parts(s, o, [Low8(|v.bytes|), Low8(|v.bytes| / 0x100)], v.bytes);
      HalfHere(s, o, |v.bytes|);
      LengthWhole(|v.bytes|);
    case QidType => QidBack(v, s, o);
  }

  lemma QidBack(v: Value, s: seq<byte>, o: nat)
    requires v.Qid? && HeldAt(s, o, OneBytes(QidType, v))
    ensures o + 13 <= |s| && |OneBytes(QidType, v)| == 13
    ensures s[o] == Low8(v.kind) && ReadLe32(s, o + 1) == Low32(v.version) && ReadLe32(s, o + 5) == Low32(v.path)
  {
    hide WordBytes, ReadLe32, Wrap;
    var kind, version, path := [Low8(v.kind)], WordBytes(v.version), WordBytes(v.path);
    WordSize(v.version);
    WordSize(v.path);
    Parts(s, o, kind + version + path, ZEROS);
    Parts(s, o, kind + version, path);
    Parts(s, o, kind, version);
    assert s[o] == s[o..o + 1][0];
    WordHere(s, o + 1, v.version);
    WordHere(s, o + 5, v.path);
  }

  lemma WordSize(n: int)
    ensures |WordBytes(n)| == 4
  {}

  lemma LengthWhole(n: nat)
    requires n < 0x1_0000
    ensures Low16(n) == n
  {}

  /** What was written comes back cut to its types' widths, and reading ends where writing did. */
  lemma {:induction false} AllBack(ts: seq<Type>, vs: seq<Value>, s: seq<byte>, o: nat)
    requires Typed(ts, vs) && forall i :: 0 <= i < |ts| ==> ts[i] != Other && ShortText(vs[i])
    requires HeldAt(s, o, AllBytes(ts, vs))
    ensures GetAll(ts, s, o) == Some((NarrowAll(ts, vs), o + |AllBytes(ts, vs)|))
    decreases |ts|
  {
    hide GetOne, OneBytes, Narrow, HeldAt, Fits;
    if ts != [] {
      var n := |ts| - 1;
      Parts(s, o, AllBytes(ts[..n], vs[..n]), OneBytes(ts[n], vs[n]));
      AllBack(ts[..n], vs[..n], s, o);
      OneBack(ts[n], vs[n], s, o + |AllBytes(ts[..n], vs[..n])|);
    }
  }

  lemma NarrowKeeps(t: Type, v: Value)
    requires Fits(t, v)
    ensures Narrow(t, v) == v <==> InRange(t, v)
  {}

  /** What comes back for the first values is what comes back for those alone. */
  lemma {:induction false} GetPrefix(ts: seq<Type>, s: seq<byte>, o: nat, k: nat)
    requires k <= |ts| && GetAll(ts, s, o).Some?
    ensures GetAll(ts[..k], s, o).Some?
    ensures GetAll(ts[..k], s, o).value.0 <= GetAll(ts, s, o).value.0
    decreases |ts|
  {
    hide GetOne;
    if k < |ts| {
      GetPrefix(ts[..|ts| - 1], s, o, k);
      assert ts[..|ts| - 1][..k] == ts[..k];
    } else {
      assert ts[..k] == ts;
    }
  }

  /** No more values come back than there are types; one fewer for every type that is passed over. */
  lemma {:induction false} GetCount(ts: seq<Type>, s: seq<byte>, o: nat)
    requires GetAll(ts, s, o).Some?
    ensures |GetAll(ts, s, o).value.0| <= |ts|
    ensures Other in ts ==> |GetAll(ts, s, o).value.0| < |ts|
    decreases |ts|
  {
    hide GetOne;
    if ts != [] {
      var n := |ts| - 1;
      GetCount(ts[..n], s, o);
      assert ts == ts[..n] + [ts[n]];
    }
  }

  /** A value of its type that writes and reads. */
  predicate Survives(t: Type, v: Value)
    requires Fits(t, v)
  {
    t != Other && ShortText(v) && InRange(t, v)
  }

  /** A text of 64 KB or more comes back shorter: its length field keeps sixteen bits of the count. */
  lemma LongTextShortened(b: seq<byte>, s: seq<byte>, o: nat)
    requires |b| >= 0x1_0000 && HeldAt(s, o, OneBytes(Text, Str(b)))
    ensures GetOne(Text, s, o).Some? && |GetOne(Text, s, o).value.v.bytes| == |b| % 0x1_0000 < |b|
  {
    hide Wrap;
    Parts(s, o, [Low8(|b|), Low8(|b| / 0x100)], b);
    HalfHere(s, o, |b|);
    Low16Is(|b|);
  }

  lemma Low16Is(n: nat)
    ensures Low16(n) == n % 0x1_0000
  {}

  /** The values before the first that does not survive come back. */
  lemma FrontBack(ts: seq<Type>, vs: seq<Value>, s: seq<byte>, o: nat, k: nat)
    requires Typed(ts, vs) && HeldAt(s, o, AllBytes(ts, vs)) && k < |ts|
    requires forall i :: 0 <= i < k ==> Survives(ts[i], vs[i])
    ensures Typed(ts[..k], vs[..k])
    ensures var at := o + |AllBytes(ts[..k], vs[..k])|;
      && GetAll(ts[..k], s, o) == Some((NarrowAll(ts[..k], vs[..k]), at))
      && HeldAt(s, at, OneBytes(ts[k], vs[k]))
  {
    hide OneBytes, Narrow, HeldAt, Fits, InRange, GetAll, AllBytes;
    Leading(ts, vs, s, o, k + 1);
    AllMore(ts, vs, k);
    var front, fronts := ts[..k], vs[..k];
    Parts(s, o, AllBytes(front, fronts), OneBytes(ts[k], vs[k]));
    forall i | 0 <= i < k
      ensures front[i] != Other && ShortText(fronts[i])
    {
      assert Survives(ts[i], vs[i]);
    }
    AllBack(front, fronts, s, o);
  }

  /** Some value is the first that does not survive; what comes back differs there, or is too short. */
  lemma FirstLost(ts: seq<Type>, vs: seq<Value>, s: seq<byte>, o: nat, k: nat)
    requires Typed(ts, vs) && HeldAt(s, o, AllBytes(ts, vs)) && k < |ts| && !Survives(ts[k], vs[k])
    requires forall i :: 0 <= i < k ==> Survives(ts[i], vs[i])
    ensures GetAll(ts, s, o).Some? ==> GetAll(ts, s, o).value.0 != vs
  {
    hide GetOne, OneBytes, HeldAt, Fits, Survives, GetAll, AllBytes, NarrowAll;
    if GetAll(ts, s, o).Some? {
      if Other in ts {
        GetCount(ts, s, o);
        return;
      }
      FrontBack(ts, vs, s, o, k);
      NarrowSize(ts[..k], vs[..k]);
      GetPrefix(ts, s, o, k + 1);
      GetMore(ts[..k], ts[k], s, o);
      assert ts[..k] + [ts[k]] == ts[..k + 1];
      OneLost(ts[k], vs[k], s, o + |AllBytes(ts[..k], vs[..k])|);
      var got := GetAll(ts[..k + 1], s, o).value.0;
      assert |got| == k + 1 && got[k] != vs[k];
      assert got[k] == GetAll(ts, s, o).value.0[k];
    }
  }

  lemma NarrowSize(ts: seq<Type>, vs: seq<Value>)
    requires Typed(ts, vs)
    ensures |NarrowAll(ts, vs)| == |ts|
  {}

  lemma OneLost(t: Type, v: Value, s: seq<byte>, o: nat)
    requires t != Other && Fits(t, v) && !Survives(t, v) && HeldAt(s, o, OneBytes(t, v))
    ensures GetOne(t, s, o).Some? ==> GetOne(t, s, o).value.v != v
  {
    hide HeldAt, OneBytes, GetOne, Narrow;
    if ShortText(v) {
      OneBack(t, v, s, o);
      NarrowKeeps(t, v);
    } else if t == Text {
      LongTextShortened(v.bytes, s, o);
    } else {
      OnlyTexts(t, v);
    }
  }

  lemma OnlyTexts(t: Type, v: Value)
    requires t != Other && Fits(t, v) && v.Str?
    ensures t == Text
  {}

  /** What is held, its leading values are held. */
  lemma {:induction false} Leading(ts: seq<Type>, vs: seq<Value>, s: seq<byte>, o: nat, k: nat)
    requires Typed(ts, vs) && HeldAt(s, o, AllBytes(ts, vs)) && k <= |ts|
    ensures Typed(ts[..k], vs[..k]) && HeldAt(s, o, AllBytes(ts[..k], vs[..k]))
    decreases |ts| - k
  {
    hide HeldAt, Fits, OneBytes;
    if k == |ts| {
      assert ts[..k] == ts && vs[..k] == vs;
    } else {
      Leading(ts, vs, s, o, k + 1);
      AllMore(ts, vs, k);
      Parts(s, o, AllBytes(ts[..k], vs[..k]), OneBytes(ts[k], vs[k]));
    }
  }

  /** A list of values reads back as itself exactly when every type is known, every number is in its type's
      range and every text is under 64 KB. */
  lemma RoundTrip(ts: seq<Type>, vs: seq<Value>, s: seq<byte>, o: nat)
    requires Typed(ts, vs) && HeldAt(s, o, AllBytes(ts, vs))
    ensures GetAll(ts, s, o) == Some((vs, o + |AllBytes(ts, vs)|)) <==>
            forall i :: 0 <= i < |ts| ==> Survives(ts[i], vs[i])
    ensures (forall i :: 0 <= i < |ts| ==> Survives(ts[i], vs[i])) <==>
            GetAll(ts, s, o).Some? && GetAll(ts, s, o).value.0 == vs
  {
    hide Narrow, InRange, HeldAt, AllBytes, GetAll, Fits, Survives;
    if forall i :: 0 <= i < |ts| ==> Survives(ts[i], vs[i]) {
      AllSurvive(ts, vs, s, o);
    } else {
      var k := FirstOf(ts, vs);
      FirstLost(ts, vs, s, o, k);
    }
  }

  lemma FirstOf(ts: seq<Type>, vs: seq<Value>) returns (k: nat)
    requires Typed(ts, vs) && exists i :: 0 <= i < |ts| && !Survives(ts[i], vs[i])
    ensures k < |ts| && !Survives(ts[k], vs[k]) && forall i :: 0 <= i < k ==> Survives(ts[i], vs[i])
  {
    hide Survives;
    k := 0;
    while Survives(ts[k], vs[k])
      invariant k < |ts| && forall i :: 0 <= i < k ==> Survives(ts[i], vs[i])
      decreases |ts| - k
    {
      k := k + 1;
    }
  }

  lemma AllSurvive(ts: seq<Type>, vs: seq<Value>, s: seq<byte>, o: nat)
    requires Typed(ts, vs) && HeldAt(s, o, AllBytes(ts, vs)) && forall i :: 0 <= i < |ts| ==> Survives(ts[i], vs[i])
    ensures GetAll(ts, s, o) == Some((vs, o + |AllBytes(ts, vs)|))
  {
    hide Narrow, InRange, HeldAt, AllBytes, GetAll, Fits;
    AllBack(ts, vs, s, o);
    forall i | 0 <= i < |ts|
      ensures NarrowAll(ts, vs)[i] == vs[i]
    {
      NarrowKeeps(ts[i], vs[i]);
    }
    assert NarrowAll(ts, vs) == vs;
  }

  // ---------------------------------------------------------------- writing

  /** The struct with some bytes written at a place. */
  ghost function Over(s: seq<byte>, o: nat, b: seq<byte>): (r: seq<byte>)
    requires o + |b| <= |s|
    ensures |r| == |s|
  {
    s[..o] + b + s[o + |b|..]
  }

  lemma OverMore(s: seq<byte>, o: nat, a: seq<byte>, b: seq<byte>)
    requires o + |a| + |b| <= |s|
    ensures Over(Over(s, o, a), o + |a|, b) == Over(s, o, a + b)
  {}

  lemma OverNone(s: seq<byte>, o: nat)
    requires o <= |s|
    ensures Over(s, o, []) == s
  {}

  lemma OverHolds(s: seq<byte>, o: nat, b: seq<byte>)
    requires o + |b| <= |s|
    ensures HeldAt(Over(s, o, b), o, b)
  {}

  method PutByte(struct: array<byte>, o: nat, n: int)
    requires o < struct.Length
    modifies struct
    ensures struct[..] == Over(old(struct[..]), o, [Low8(n)])
  {
    struct[o] := Low8(n);
  }

  method PutWord(struct: array<byte>, o: nat, n: int)
    requires o + 4 <= struct.Length
    modifies struct
    ensures struct[..] == Over(old(struct[..]), o, WordBytes(n))
  {
    hide Wrap;
    struct[o] := Low8(n);
    struct[o + 1] := Low8(n / 0x100);
    struct[o + 2] := Low8(n / 0x1_0000);
    struct[o + 3] := Low8(n / 0x100_0000);
  }

  /** Copies bytes in. */
  method PutAll(struct: array<byte>, o: nat, b: seq<byte>)
    requires o + |b| <= struct.Length
    modifies struct
    ensures struct[..] == Over(old(struct[..]), o, b)
  {
    ghost var was := struct[..];
    var i := 0;
    while i < |b|
      invariant 0 <= i <= |b|
      invariant forall k :: o <= k < o + i ==> struct[k] == b[k - o]
      invariant forall k :: 0 <= k < struct.Length && !(o <= k < o + i) ==> struct[k] == was[k]
    {
      struct[o + i] := b[i];
      i := i + 1;
    }
    assert forall k :: 0 <= k < |was| ==> struct[..][k] == Over(was, o, b)[k];
  }

  /** A text: room for its length, its bytes, and then the length. */
  method PutText(struct: array<byte>, o: nat, b: seq<byte>)
    requires o + 2 + |b| <= struct.Length
    modifies struct
    ensures struct[..] == Over(old(struct[..]), o, [Low8(|b|), Low8(|b| / 0x100)] + b)
  {
    hide Wrap;
    struct[o], struct[o + 1] := 0, 0;
    PutAll(struct, o + 2, b);
    struct[o] := Low8(|b|);
    struct[o + 1] := Low8(|b| / 0x100);
  }

  function Nested(ts: seq<Type>): nat { if QidType in ts then 1 else 0 }

  function QidTypes(): seq<Type> { [Octet, Word, Double] }

  function QidParts(v: Value): seq<Value>
    requires v.Qid?
  {
    [Num(v.kind), Num(v.version), Num(v.path)]
  }

  lemma AllMore(ts: seq<Type>, vs: seq<Value>, i: nat)
    requires Typed(ts, vs) && i < |ts|
    ensures Typed(ts[..i], vs[..i]) && Typed(ts[..i + 1], vs[..i + 1])
    ensures AllBytes(ts[..i + 1], vs[..i + 1]) == AllBytes(ts[..i], vs[..i]) + OneBytes(ts[i], vs[i])
  {
    hide Fits, OneBytes;
    assert ts[..i + 1][..i] == ts[..i] && vs[..i + 1][..i] == vs[..i];
  }

  lemma {:induction false} AllLonger(ts: seq<Type>, vs: seq<Value>, i: nat)
    requires Typed(ts, vs) && i <= |ts|
    ensures Typed(ts[..i], vs[..i]) && |AllBytes(ts[..i], vs[..i])| <= |AllBytes(ts, vs)|
    decreases |ts| - i
  {
    hide Fits, OneBytes;
    if i < |ts| {
      AllMore(ts, vs, i);
      AllLonger(ts, vs, i + 1);
    } else {
      assert ts[..i] == ts && vs[..i] == vs;
    }
  }

  /** A file's identity is laid out as a byte, a word and a double word. */
  lemma QidBytes(v: Value)
    requires v.Qid?
    ensures Typed(QidTypes(), QidParts(v)) && AllBytes(QidTypes(), QidParts(v)) == OneBytes(QidType, v)
  {
    hide WordBytes, Wrap;
    var ts, vs := QidTypes(), QidParts(v);
    assert Typed(ts, vs);
    AllMore(ts, vs, 0);
    AllMore(ts, vs, 1);
    AllMore(ts, vs, 2);
    assert ts[..0] == [] && vs[..0] == [] && ts[..3] == ts && vs[..3] == vs;
    NoBytes();
    assert OneBytes(ts[0], vs[0]) == [Low8(v.kind)] && OneBytes(ts[1], vs[1]) == WordBytes(v.version);
    assert OneBytes(ts[2], vs[2]) == WordBytes(v.path) + ZEROS;
  }

  /** Writes the values from an offset on, and nothing else; gives back how many bytes that took. */
  method Marshall(ts: seq<Type>, vs: seq<Value>, struct: array<byte>, offset: nat) returns (size: nat)
    requires Typed(ts, vs) && offset + |AllBytes(ts, vs)| <= struct.Length
    modifies struct
    ensures size == |AllBytes(ts, vs)|
    ensures struct[..] == Over(old(struct[..]), offset, AllBytes(ts, vs))
    decreases Nested(ts)
  {
    hide Over, AllBytes, WordBytes, Wrap;
    size := 0;
    ghost var was := struct[..];
    NoBytes();
    OverNone(was, offset);
    assert ts[..0] == [] && vs[..0] == [];
    var i := 0;
    while i < |ts|
      invariant 0 <= i <= |ts| && Typed(ts[..i], vs[..i])
      invariant size == |AllBytes(ts[..i], vs[..i])| && offset + size <= struct.Length
      invariant struct[..] == Over(was, offset, AllBytes(ts[..i], vs[..i]))
    {
      AllMore(ts, vs, i);
      AllLonger(ts, vs, i + 1);
      ghost var before := AllBytes(ts[..i], vs[..i]);
      var took := MarshallOne(ts[i], vs[i], struct, offset + size, ts);
      OverMore(was, offset, before, OneBytes(ts[i], vs[i]));
      size := size + took;
      i := i + 1;
    }
    assert ts[..i] == ts && vs[..i] == vs;
  }

  method MarshallOne(t: Type, v: Value, struct: array<byte>, o: nat, ghost all: seq<Type>) returns (took: nat)
    requires Fits(t, v) && t in all && o + |OneBytes(t, v)| <= struct.Length
    modifies struct
    ensures took == |OneBytes(t, v)|
    ensures struct[..] == Over(old(struct[..]), o, OneBytes(t, v))
    decreases Nested(all), 0
  {
    hide Over, WordBytes, Wrap;
    ghost var was := struct[..];
    match t
    case Word =>
      PutWord(struct, o, v.n);
      took := 4;
    case Double =>
      PutWord(struct, o, v.n);
      PutAll(struct, o + 4, ZEROS);
      OverMore(was, o, WordBytes(v.n), ZEROS);
      took := 8;
    case Half =>
      PutByte(struct, o, v.n);
      PutByte(struct, o + 1, v.n / 0x100);
      OverMore(was, o, [Low8(v.n)], [Low8(v.n / 0x100)]);
      assert [Low8(v.n)] + [Low8(v.n / 0x100)] == OneBytes(t, v);
      took := 2;
    case Octet =>
      PutByte(struct, o, v.n);
      took := 1;
    case Text =>
      PutText(struct, o, v.bytes);
      took := 2 + |v.bytes|;
    case QidType =>
      QidBytes(v);
      var _ := Marshall(QidTypes(), QidParts(v), struct, o);
      took := 13;
    case Other =>
      OverNone(was, o);
      took := 0;
  }

  lemma NoBytes()
    ensures AllBytes([], []) == []
  {}

  // ---------------------------------------------------------------- reading

  /** Where the next read starts. */
  class State {
    var offset: nat

    constructor (offset: nat)
      ensures this.offset == offset
    {
      this.offset := offset;
    }
  }

  /** Reads values from the state's offset on and moves it past them; nothing when they run off the end. */
  method Unmarshall(ts: seq<Type>, struct: array<byte>, state: State) returns (r: Option<seq<Value>>)
    modifies state
    ensures var got := GetAll(ts, struct[..], old(state.offset));
      if got.None? then r.None? else r == Some(got.value.0) && state.offset == got.value.1
    decreases Nested(ts)
  {
    hide GetOne, ReadLe16, ReadLe32;
    var offset := state.offset;
    var output: seq<Value> := [];
    var i := 0;
    ghost var s := struct[..];
    while i < |ts|
      invariant 0 <= i <= |ts| && GetAll(ts[..i], s, old(state.offset)) == Some((output, offset))
    {
      assert ts[..i + 1][..i] == ts[..i];
      if ts[i] != Other {
        var got := UnmarshallOne(ts[i], struct, offset, state, ts);
        if got.None? {
          RunsOff(ts, s, old(state.offset), i + 1);
          return None;
        }
        output, offset := output + [got.value.v], got.value.next;
      }
      i := i + 1;
    }
    assert ts[..i] == ts;
    state.offset := offset;
    r := Some(output);
  }

  method UnmarshallOne(t: Type, struct: array<byte>, o: nat, state: State, ghost all: seq<Type>)
    returns (got: Option<Got>)
    requires t != Other && t in all
    modifies state
    ensures got == GetOne(t, struct[..], o)
    decreases Nested(all), 0
  {
    hide ReadLe16, ReadLe32;
    var s := struct[..];
    match t
    case Word => got := GetNum(s, o, 4, 4);
    case Double => got := GetNum(s, o, 4, 8);
    case Half => got := GetNum(s, o, 2, 2);
    case Octet => got := GetNum(s, o, 1, 1);
    case Text =>
      if o + 2 > |s| {
        return None;
      }
      var len := ReadLe16(s, o);
      if o + 2 + len > |s| {
        return None;
      }
      got := Some(Got(Str(s[o + 2..o + 2 + len]), o + 2 + len));
    case QidType =>
      state.offset := o;
      var qid := Unmarshall(QidTypes(), struct, state);
      QidRead(s, o);
      if qid.None? {
        return None;
      }
      got := Some(Got(Qid(qid.value[0].n, qid.value[1].n, qid.value[2].n), state.offset));
  }

  lemma {:induction false} RunsOff(ts: seq<Type>, s: seq<byte>, o: nat, i: nat)
    requires i <= |ts| && GetAll(ts[..i], s, o) == None
    ensures GetAll(ts, s, o) == None
    decreases |ts| - i
  {
    hide GetOne;
    if i < |ts| {
      assert ts[..i + 1][..i] == ts[..i];
      RunsOff(ts, s, o, i + 1);
    } else {
      assert ts[..i] == ts;
    }
  }

  /** Reading a file's identity is reading its three parts. */
  lemma QidRead(s: seq<byte>, o: nat)
    ensures GetAll(QidTypes(), s, o)
         == if o + 13 > |s| then None
            else Some(([Num(s[o]), Num(ReadLe32(s, o + 1)), Num(ReadLe32(s, o + 5))], o + 13))
  {
    hide ReadLe32, GetAll;
    assert [] + [Octet] == [Octet] && [Octet] + [Word] == [Octet, Word] && [Octet, Word] + [Double] == QidTypes();
    GetMore([], Octet, s, o);
    GetMore([Octet], Word, s, o);
    GetMore([Octet, Word], Double, s, o);
    if o + 13 <= |s| {
      var a: seq<Value>, b: seq<Value>, c: seq<Value> :=
        [Num(s[o])], [Num(ReadLe32(s, o + 1))], [Num(ReadLe32(s, o + 5))];
      assert [] + a == a && a + b == [a[0], b[0]] && a + b + c == [a[0], b[0], c[0]];
      assert GetAll([Octet], s, o) == Some(([Num(s[o])], o + 1));
      assert GetAll([Octet, Word], s, o) == Some(([Num(s[o]), Num(ReadLe32(s, o + 1))], o + 5));
    }
  }

  lemma GetMore(ts: seq<Type>, t: Type, s: seq<byte>, o: nat)
    requires t != Other
    ensures GetAll([], s, o) == Some(([], o))
    ensures GetAll(ts + [t], s, o) == (
      var before := GetAll(ts, s, o);
      if before == None then None
      else
        var one := GetOne(t, s, before.value.1);
        if one == None then None else Some((before.value.0 + [one.value.v], one.value.next)))
  {
    hide GetOne;
    assert (ts + [t])[..|ts|] == ts;
  }

  /** Writing values and reading them with the same types: what comes back, where it ends and how much was
      written all agree. */
  method Through(ts: seq<Type>, vs: seq<Value>, struct: array<byte>, offset: nat)
    returns (r: Option<seq<Value>>, size: nat, end: nat)
    requires Typed(ts, vs) && offset + |AllBytes(ts, vs)| <= struct.Length
    modifies struct
    ensures size == |AllBytes(ts, vs)|
    ensures r == Some(vs) <==> forall i :: 0 <= i < |ts| ==> Survives(ts[i], vs[i])
    ensures (forall i :: 0 <= i < |ts| ==> ts[i] != Other && ShortText(vs[i])) ==>
      r == Some(NarrowAll(ts, vs)) && end == offset + size
  {
    hide AllBytes, Over, GetAll, InRange, HeldAt, Narrow, Survives;
    ghost var was := struct[..];
    size := Marshall(ts, vs, struct, offset);
    OverHolds(was, offset, AllBytes(ts, vs));
    RoundTrip(ts, vs, struct[..], offset);
    if forall i :: 0 <= i < |ts| ==> ts[i] != Other && ShortText(vs[i]) {
      AllBack(ts, vs, struct[..], offset);
    }
    var state := new State(offset);
    r := Unmarshall(ts, struct, state);
    end := state.offset;
  }

  // ---------------------------------------------------------------- in numbers

  /** Four bytes as a number, the lowest first. */
  function FourOf(s: seq<byte>, o: nat): nat
    requires o + 4 <= |s|
  {
    var b0: nat, b1: nat, b2: nat, b3: nat := s[o], s[o + 1], s[o + 2], s[o + 3];
    b0 + 256 * b1 + 65536 * b2 + 16777216 * b3
  }

  lemma WordSays(n: int)
    ensures FourOf(WordBytes(n), 0) == n % 4294967296
  {
    Digits(n);
    hide Wrap;
    WrapIs(n);
  }

  lemma WrapIs(n: int)
    ensures Low32(n) == n % 4294967296 && Low16(n) == n % 65536 && Low8(n) == n % 256
  {}

  /** How each type is laid out: numbers cut to its width, a text behind its length, and an identity as a byte,
      a word and a double word. */
  lemma TypesSay(n: int, b: seq<byte>, q: Value)
    requires q.Qid?
    ensures var w := OneBytes(Word, Num(n)); |w| == 4 && FourOf(w, 0) == n % 4294967296
    ensures var d := OneBytes(Double, Num(n)); |d| == 8 && FourOf(d, 0) == n % 4294967296 && FourOf(d, 4) == 0
    ensures var h := OneBytes(Half, Num(n)); |h| == 2 && h[0] == n % 256 && h[1] == n / 256 % 256
    ensures OneBytes(Octet, Num(n)) == [n % 256]
    ensures var t := OneBytes(Text, Str(b));
      |t| == 2 + |b| && t[0] == |b| % 256 && t[1] == |b| / 256 % 256 && t[2..] == b
    ensures var i := OneBytes(QidType, q);
      && |i| == 13 && i[0] == q.kind % 256 && FourOf(i, 1) == q.version % 4294967296
      && FourOf(i, 5) == q.path % 4294967296 && FourOf(i, 9) == 0
    ensures OneBytes(Other, q) == []
  {
    hide WordBytes, Wrap;
    WordSays(n);
    WordSays(q.version);
    WordSays(q.path);
    WrapIs(n);
    WrapIs(n / 256);
    WrapIs(|b|);
    WrapIs(|b| / 256);
    WrapIs(q.kind);
  }

  /** One value after the other. */
  lemma ValuesInOrder(ts: seq<Type>, vs: seq<Value>, t: Type, v: Value)
    requires Typed(ts, vs) && Fits(t, v)
    ensures Typed(ts + [t], vs + [v]) && AllBytes([], []) == []
    ensures AllBytes(ts + [t], vs + [v]) == AllBytes(ts, vs) + OneBytes(t, v)
  {
    hide Fits, OneBytes;
    assert (ts + [t])[..|ts|] == ts && (vs + [v])[..|vs|] == vs;
  }

  /** What any bytes are read as. */
  lemma BytesSay(s: seq<byte>)
    requires |s| >= 13
    ensures GetOne(Word, s, 0) == Some(Got(Num(FourOf(s, 0)), 4))
    ensures GetOne(Double, s, 0) == Some(Got(Num(FourOf(s, 0)), 8))
    ensures GetOne(Octet, s, 0) == Some(Got(Num(s[0]), 1))
    ensures GetOne(QidType, s, 0) == Some(Got(Qid(s[0], FourOf(s, 1), FourOf(s, 5)), 13))
    ensures var b0: nat, b1: nat := s[0], s[1];
      var n := b0 + 256 * b1;
      && GetOne(Half, s, 0) == Some(Got(Num(n), 2))
      && GetOne(Text, s, 0) == if 2 + n <= |s| then Some(Got(Str(s[2..2 + n]), 2 + n)) else None
  {}
}
