/**
 Attribute containers: core/app-framework/app-native-shared/attr_container.c. A key/value map packed into one flat
 buffer: total length, tag, attribute count, then the attributes, then slack.
 */
module Attributes {
  import opened Bytes

  const KIND_STRING: byte := 9
  const KIND_BYTEARRAY: byte := 10

  /** `kind` is one of ATTR_TYPE_SHORT .. ATTR_TYPE_BYTEARRAY. */
  datatype Attr = Attr(key: seq<byte>, kind: byte, value: seq<byte>)

  predicate Scalar(kind: byte) {
    1 <= kind <= 8
  }

  /** `1 << (kind & 3)`. */
  function Width(kind: byte): nat {
    if kind % 4 == 0 then 1 else if kind % 4 == 1 then 2 else if kind % 4 == 2 then 4 else 8
  }

  /** Key and value lengths fit their fields. */
  predicate InRange(a: Attr) {
    && a.key != [] && 0 !in a.key && |a.key| + 1 < 0x1_0000
    && 1 <= a.kind <= KIND_BYTEARRAY
    && (Scalar(a.kind) ==> |a.value| == Width(a.kind))
    && (a.kind == KIND_STRING ==> |a.value| < 0x1_0000)
    && (a.kind == KIND_BYTEARRAY ==> |a.value| < 0x1_0000_0000)
  }

  /** Values of kinds 1 to 8 (short, int, int64, byte, uint16, float, double, boolean) have the size of their type. */
  lemma ScalarSizes(a: Attr)
    requires a.key != [] && 0 !in a.key && |a.key| + 1 < 0x1_0000 && 1 <= a.kind <= 8
    ensures InRange(a) <==> |a.value| == [2, 4, 8, 1, 2, 4, 8, 1][a.kind - 1]
  {
  }

  predicate AllInRange(attrs: seq<Attr>) {
    forall i | 0 <= i < |attrs| :: InRange(attrs[i])
  }

  function LengthField(a: Attr): (s: seq<byte>)
    requires InRange(a)
  {
    if Scalar(a.kind) then [] else if a.kind == KIND_STRING then LE16(|a.value|) else LE32(|a.value|)
  }

  /** One attribute as stored: key length with terminator, key, NUL, kind, value length if it varies, value. */
  function Encode(a: Attr): (s: seq<byte>)
    requires InRange(a)
    ensures |s| == 4 + |a.key| + |LengthField(a)| + |a.value|
  {
    LE16(|a.key| + 1) + (a.key + [0]) + [a.kind] + LengthField(a) + a.value
  }

  function EncodeAll(attrs: seq<Attr>): seq<byte>
    requires AllInRange(attrs)
  {
    if attrs == [] then [] else Encode(attrs[0]) + EncodeAll(attrs[1..])
  }

  /** Everything before the first attribute. */
  function Head(total: uint32, tag: seq<byte>, num: uint16): (s: seq<byte>)
    requires |tag| < 0x1_0000
    ensures |s| == 8 + |tag|
  {
    LE32(total) + LE16(|tag|) + tag + LE16(num)
  }

  /** Buffer `b` holds exactly `attrs`, in this order, and possibly slack behind them. */
  ghost predicate Holds(b: seq<byte>, tag: seq<byte>, attrs: seq<Attr>) {
    var h := 8 + |tag|;
    && |b| < 0x1_0000_0000 && 1 <= |tag| < 0x1_0000 && |attrs| < 0x1_0000 && h < |b|
    && AllInRange(attrs)
    && h + |EncodeAll(attrs)| <= |b|
    && b[..h] == Head(|b|, tag, |attrs|)
    && b[h..h + |EncodeAll(attrs)|] == EncodeAll(attrs)
  }

  predicate Distinct(attrs: seq<Attr>) {
    forall i, j | 0 <= i < j < |attrs| :: attrs[i].key != attrs[j].key
  }

  // Walking the buffer. A read outside the buffer, which C leaves undefined, ends the walk.

  /** `attr_container_get_attr_begin`: offset of the first attribute, and the attribute count. */
  function AttrBegin(b: seq<byte>): Option<(nat, uint16)> {
    if |b| < 6 then None
    else
      var total, tagLen := FromLE32(b[..4]), FromLE16(b[4..6]);
      if total == 0 || tagLen == 0 then None
      else
        var p := 6 + tagLen as int;
        if p >= total || p + 2 > |b| then None
        else if p + 2 >= total then None
        else Some((p + 2, FromLE16(b[p..p + 2])))
  }

  /** `attr_container_get_attr_next`. */
  function AttrNext(b: seq<byte>, p: nat): Option<nat> {
    if p + 2 > |b| then None
    else
      var k := p + 2 + FromLE16(b[p..p + 2]);
      if k + 1 > |b| then None
      else
        var kind, v := b[k], k + 1;
        if Scalar(kind) then Some(v + Width(kind))
        else if kind == KIND_STRING && v + 2 <= |b| then Some(v + 2 + FromLE16(b[v..v + 2]))
        else if kind == KIND_BYTEARRAY && v + 4 <= |b| then Some(v + 4 + FromLE32(b[v..v + 4]))
        else None
  }

  /** The key at `p` is `key` with its terminator. */
  predicate KeyAt(b: seq<byte>, p: nat, key: seq<byte>) {
    && p + 2 + |key| + 1 <= |b| && FromLE16(b[p..p + 2]) == |key| + 1
    && b[p + 2..p + 2 + |key| + 1] == key + [0]
  }

  /** The key found ends before the total length that the buffer states. */
  predicate EndsInside(b: seq<byte>, p: nat, key: seq<byte>) {
    |b| >= 4 && p + 2 + |key| + 1 < FromLE32(b[..4])
  }

  /** The scan of `attr_container_find_attr` over the remaining `left` attributes. */
  function FindFrom(b: seq<byte>, p: nat, left: nat, key: seq<byte>): Option<nat>
    decreases left
  {
    if left == 0 || p + 2 > |b| || FromLE16(b[p..p + 2]) == 0 then None
    else if KeyAt(b, p, key) then (if EndsInside(b, p, key) then Some(p) else None)
    else
      match AttrNext(b, p)
      case None => None
      case Some(q) => FindFrom(b, q, left - 1, key)
  }

  function FindAttr(b: seq<byte>, key: seq<byte>): Option<nat> {
    match AttrBegin(b)
    case None => None
    case Some((p, num)) => FindFrom(b, p, num, key)
  }

  /** `attr_container_get_as_bytearray` with the kind byte: what a reader gets for a key. */
  function Lookup(b: seq<byte>, key: seq<byte>): Option<(byte, seq<byte>)> {
    match FindAttr(b, key)
    case None => None
    case Some(p) =>
      var v := p + 2 + |key| + 2;
      if v > |b| then None
      else
        var kind := b[v - 1];
        match AttrNext(b, p)
        case None => None
        case Some(q) =>
          var start := if Scalar(kind) then v else if kind == KIND_STRING then v + 2 else v + 4;
          if start <= q <= |b| then Some((kind, b[start..q])) else None
  }

  // Where attributes lie

  function Offset(tag: seq<byte>, attrs: seq<Attr>, i: nat): nat
    requires AllInRange(attrs) && i <= |attrs|
  {
    8 + |tag| + |EncodeAll(attrs[..i])|
  }

  lemma {:induction false} EncodeFirst(a: seq<Attr>)
    requires AllInRange(a)
    ensures EncodeAll(a) == if a == [] then [] else Encode(a[0]) + EncodeAll(a[1..])
  {
    hide Encode, InRange;
  }

  lemma {:induction false} EncodeAllConcat(a: seq<Attr>, b: seq<Attr>)
    requires AllInRange(a) && AllInRange(b)
    ensures AllInRange(a + b) && EncodeAll(a + b) == EncodeAll(a) + EncodeAll(b)
    decreases a
  {
    hide Encode, InRange, EncodeAll;
    EncodeFirst(a);
    if a == [] {
      assert a + b == b;
    } else {
      var rest := a[1..];
      assert (a + b)[1..] == rest + b;
      EncodeFirst(a + b);
      EncodeAllConcat(rest, b);
      Associate(Encode(a[0]), EncodeAll(rest), EncodeAll(b));
    }
  }

  lemma EncodeAllOne(a: Attr)
    requires InRange(a)
    ensures EncodeAll([a]) == Encode(a)
  {
    hide Encode, InRange;
    assert [a][1..] == [];
    assert Encode(a) + EncodeAll([]) == Encode(a);
  }

  lemma {:induction false} SplitFront(attrs: seq<Attr>, i: nat)
    requires AllInRange(attrs) && i < |attrs|
    ensures EncodeAll(attrs[..i + 1]) == EncodeAll(attrs[..i]) + Encode(attrs[i])
  {
    hide Encode, InRange, EncodeAll;
    EncodeAllOne(attrs[i]);
    EncodeAllConcat(attrs[..i], [attrs[i]]);
    assert attrs[..i + 1] == attrs[..i] + [attrs[i]];
  }

  /** The encoding around attribute `i`. */
  lemma {:induction false} SplitAt(attrs: seq<Attr>, i: nat)
    requires AllInRange(attrs) && i < |attrs|
    ensures EncodeAll(attrs) == EncodeAll(attrs[..i]) + Encode(attrs[i]) + EncodeAll(attrs[i + 1..])
    ensures EncodeAll(attrs[..i + 1]) == EncodeAll(attrs[..i]) + Encode(attrs[i])
  {
    hide Encode, InRange, EncodeAll;
    SplitFront(attrs, i);
    EncodeAllConcat(attrs[..i + 1], attrs[i + 1..]);
    assert attrs == attrs[..i + 1] + attrs[i + 1..];
  }

  /** Attribute `i` lies between its offset and the next. */
  lemma AttrAt(b: seq<byte>, tag: seq<byte>, attrs: seq<Attr>, i: nat)
    requires Holds(b, tag, attrs) && i < |attrs|
    ensures var p, q := Offset(tag, attrs, i), Offset(tag, attrs, i + 1);
            && q == p + |Encode(attrs[i])| <= 8 + |tag| + |EncodeAll(attrs)| <= |b|
            && b[p..q] == Encode(attrs[i])
            && b[q..8 + |tag| + |EncodeAll(attrs)|] == EncodeAll(attrs[i + 1..])
  {
    hide Encode, InRange, EncodeAll, Head;
    SplitAt(attrs, i);
    var h, e := 8 + |tag|, EncodeAll(attrs);
    Slices(b, h, EncodeAll(attrs[..i]), Encode(attrs[i]), EncodeAll(attrs[i + 1..]));
  }

  lemma Slices(b: seq<byte>, h: nat, x: seq<byte>, y: seq<byte>, z: seq<byte>)
    requires h + |x + y + z| <= |b| && b[h..h + |x + y + z|] == x + y + z
    ensures b[h + |x|..h + |x| + |y|] == y && b[h + |x| + |y|..h + |x + y + z|] == z
  {
    var e := x + y + z;
    assert b[h + |x|..h + |x| + |y|] == b[h..h + |e|][|x|..|x| + |y|] == y;
    assert b[h + |x| + |y|..h + |e|] == b[h..h + |e|][|x| + |y|..] == z;
  }

  /** Reading one encoded attribute. */
  lemma ReadEncoded(b: seq<byte>, p: nat, a: Attr)
    requires InRange(a) && p + |Encode(a)| <= |b| && b[p..p + |Encode(a)|] == Encode(a)
    ensures FromLE16(b[p..p + 2]) == |a.key| + 1
    ensures b[p + 2..p + 2 + |a.key| + 1] == a.key + [0]
    ensures AttrNext(b, p) == Some(p + |Encode(a)|)
    ensures var v := p + 2 + |a.key| + 2;
            b[v - 1] == a.kind && b[v + |LengthField(a)|..p + |Encode(a)|] == a.value
  {
    hide LE16, LE32, FromLE16, FromLE32;
    var k, l := LE16(|a.key| + 1), LengthField(a);
    EncodedSlices(b, p, k, a.key + [0], a.kind, l, a.value);
    Image16(|a.key| + 1, [0, 0]);
    var v := p + 2 + |a.key| + 2;
    if a.kind == KIND_STRING {
      Image16(|a.value|, [0, 0]);
    } else if a.kind == KIND_BYTEARRAY {
      LE32Inverse(|a.value|);
    }
  }

  lemma EncodedSlices(b: seq<byte>, p: nat, k: seq<byte>, key0: seq<byte>, kind: byte, l: seq<byte>, value: seq<byte>)
    requires |k| == 2
    requires var e := k + key0 + [kind] + l + value; p + |e| <= |b| && b[p..p + |e|] == e
    ensures b[p..p + 2] == k && b[p + 2..p + 2 + |key0|] == key0 && b[p + 2 + |key0|] == kind
    ensures var v := p + 3 + |key0|; b[v..v + |l|] == l && b[v + |l|..v + |l| + |value|] == value
  {
    var n := |key0|;
    var e := k + key0 + [kind] + l + value;
    EncodedParts(k, key0, kind, l, value);
    SliceOfSlice(b, p, |e|, 0, 2);
    SliceOfSlice(b, p, |e|, 2, 2 + n);
    SliceOfSlice(b, p, |e|, 3 + n, 3 + n + |l|);
    SliceOfSlice(b, p, |e|, 3 + n + |l|, |e|);
    assert b[p + 2 + n] == b[p..p + |e|][2 + n];
  }

  lemma EncodedParts(k: seq<byte>, key0: seq<byte>, kind: byte, l: seq<byte>, value: seq<byte>)
    requires |k| == 2
    ensures var e, n := k + key0 + [kind] + l + value, |key0|;
            && e[0..2] == k && e[2..2 + n] == key0 && e[2 + n] == kind
            && e[3 + n..3 + n + |l|] == l && e[3 + n + |l|..|e|] == value
  {
    var front := k + key0;
    var e, n := front + [kind] + l + value, |key0|;
    assert e[..2 + n] == front && front[0..2] == k && front[2..2 + n] == key0;
    assert e[0..2] == front[0..2] && e[2..2 + n] == front[2..2 + n];
  }

  lemma HeadRead(b: seq<byte>, tag: seq<byte>, attrs: seq<Attr>)
    requires Holds(b, tag, attrs)
    ensures FromLE32(b[..4]) == |b| && FromLE16(b[4..6]) == |tag| && FromLE16(b[6 + |tag|..8 + |tag|]) == |attrs|
    ensures AttrBegin(b) == Some((8 + |tag|, |attrs|))
  {
    hide LE16, LE32, FromLE16, FromLE32, EncodeAll;
    HeadSlices(b, LE32(|b|), LE16(|tag|), tag, LE16(|attrs|));
    LE32Inverse(|b|);
    Image16(|tag|, [0, 0]);
    Image16(|attrs|, [0, 0]);
  }

  lemma HeadSlices(b: seq<byte>, t: seq<byte>, l: seq<byte>, tag: seq<byte>, n: seq<byte>)
    requires |t| == 4 && |l| == 2 && |n| == 2 && 8 + |tag| <= |b| && b[..8 + |tag|] == t + l + tag + n
    ensures b[..4] == t && b[4..6] == l && b[6..6 + |tag|] == tag && b[6 + |tag|..8 + |tag|] == n
  {
    var s := b[..8 + |tag|];
    assert s[..4] == t && s[4..6] == l && s[6..6 + |tag|] == tag && s[6 + |tag|..] == n;
  }

  /** Index of the attribute with a key, or the number of attributes. */
  function IndexOf(attrs: seq<Attr>, key: seq<byte>): (i: nat)
    ensures i <= |attrs| && (i < |attrs| ==> attrs[i].key == key) && forall j | 0 <= j < i :: attrs[j].key != key
  {
    if attrs == [] || attrs[0].key == key then 0 else 1 + IndexOf(attrs[1..], key)
  }

  /** The scan finds the first attribute with the key. */
  lemma {:induction false} FindFromHolds(b: seq<byte>, tag: seq<byte>, attrs: seq<Attr>, i: nat, key: seq<byte>)
    requires Holds(b, tag, attrs) && i <= IndexOf(attrs, key)
    ensures FindFrom(b, Offset(tag, attrs, i), |attrs| - i, key) ==
            if IndexOf(attrs, key) < |attrs| then Some(Offset(tag, attrs, IndexOf(attrs, key))) else None
    decreases |attrs| - i
  {
    hide Encode, EncodeAll, Holds, FromLE16, AttrNext, InRange, KeyAt, EndsInside, Offset;
    HoldsInRange(b, tag, attrs);
    if i < |attrs| {
      AttrRead(b, tag, attrs, i, key);
      if i < IndexOf(attrs, key) {
        FindFromHolds(b, tag, attrs, i + 1, key);
      }
    }
  }

  /** What the scan sees at attribute `i`. */
  lemma AttrRead(b: seq<byte>, tag: seq<byte>, attrs: seq<Attr>, i: nat, key: seq<byte>)
    requires Holds(b, tag, attrs) && i < |attrs|
    ensures AllInRange(attrs)
    ensures var p := Offset(tag, attrs, i);
            && p + 2 <= |b| && FromLE16(b[p..p + 2]) != 0 && (KeyAt(b, p, key) <==> attrs[i].key == key)
            && (KeyAt(b, p, key) ==> EndsInside(b, p, key)) && AttrNext(b, p) == Some(Offset(tag, attrs, i + 1))
  {
    hide EncodeAll, Holds, FromLE16, FromLE32, AttrNext, InRange, AttrBegin, LE16, LE32;
    HoldsInRange(b, tag, attrs);
    HeadRead(b, tag, attrs);
    AttrAt(b, tag, attrs, i);
    ReadEncoded(b, Offset(tag, attrs, i), attrs[i]);
    KeyDecides(b, Offset(tag, attrs, i), attrs[i], key);
  }

  lemma HoldsInRange(b: seq<byte>, tag: seq<byte>, attrs: seq<Attr>)
    requires Holds(b, tag, attrs)
    ensures AllInRange(attrs)
  {
  }

  lemma KeyDecides(b: seq<byte>, p: nat, a: Attr, key: seq<byte>)
    requires InRange(a) && p + 2 + |a.key| + 1 <= |b|
    requires FromLE16(b[p..p + 2]) == |a.key| + 1 && b[p + 2..p + 2 + |a.key| + 1] == a.key + [0]
    ensures KeyAt(b, p, key) <==> a.key == key
  {
    hide FromLE16;
    if |a.key| == |key| && a.key + [0] == key + [0] {
      assert (a.key + [0])[..|key|] == (key + [0])[..|key|];
    }
  }

  /** What a key means in a list of attributes. */
  function Meaning(attrs: seq<Attr>, key: seq<byte>): Option<(byte, seq<byte>)> {
    var i := IndexOf(attrs, key);
    if i < |attrs| then Some((attrs[i].kind, attrs[i].value)) else None
  }

  /** Reading a buffer gives the meaning of the attributes it holds, for every key. */
  lemma LookupHolds(b: seq<byte>, tag: seq<byte>, attrs: seq<Attr>, key: seq<byte>)
    requires Holds(b, tag, attrs)
    ensures Lookup(b, key) == Meaning(attrs, key)
  {
    hide Encode, EncodeAll, Holds, FromLE16, AttrNext, LE16, LE32, FindFrom;
    HoldsInRange(b, tag, attrs);
    HeadRead(b, tag, attrs);
    assert Offset(tag, attrs, 0) == 8 + |tag| by { EncodeNothing(attrs); }
    FindFromHolds(b, tag, attrs, 0, key);
    var i := IndexOf(attrs, key);
    if i < |attrs| {
      var p, a := Offset(tag, attrs, i), attrs[i];
      AttrAt(b, tag, attrs, i);
      ReadEncoded(b, p, a);
    }
  }

  lemma EncodeNothing(attrs: seq<Attr>)
    requires AllInRange(attrs)
    ensures EncodeAll(attrs[..0]) == []
  {
  }

  /** `attr_container_get_attr_end`: the walk over all attributes. */
  function EndFrom(b: seq<byte>, p: nat, left: nat): Option<nat>
    decreases left
  {
    if left == 0 then Some(p)
    else
      match AttrNext(b, p)
      case None => None
      case Some(q) => EndFrom(b, q, left - 1)
  }

  function AttrEnd(b: seq<byte>): Option<nat> {
    match AttrBegin(b)
    case None => None
    case Some((p, num)) => EndFrom(b, p, num)
  }

  lemma {:induction false} EndFromHolds(b: seq<byte>, tag: seq<byte>, attrs: seq<Attr>, i: nat)
    requires Holds(b, tag, attrs) && i <= |attrs|
    ensures AllInRange(attrs) && EndFrom(b, Offset(tag, attrs, i), |attrs| - i) == Some(8 + |tag| + |EncodeAll(attrs)|)
    decreases |attrs| - i
  {
    hide Encode, EncodeAll, Holds, AttrNext, InRange;
    HoldsInRange(b, tag, attrs);
    if i < |attrs| {
      AttrAt(b, tag, attrs, i);
      ReadEncoded(b, Offset(tag, attrs, i), attrs[i]);
      EndFromHolds(b, tag, attrs, i + 1);
    } else {
      assert attrs[..i] == attrs;
    }
  }

  /** The walk ends exactly at the end of the attributes, inside the total length. */
  lemma WalkEnds(b: seq<byte>, tag: seq<byte>, attrs: seq<Attr>)
    requires Holds(b, tag, attrs)
    ensures AllInRange(attrs) && AttrEnd(b) == Some(8 + |tag| + |EncodeAll(attrs)|)
    ensures 8 + |tag| + |EncodeAll(attrs)| <= FromLE32(b[..4]) == |b|
  {
    hide Encode, EncodeAll, FromLE16, FromLE32, Head, InRange, EndFrom;
    HeadRead(b, tag, attrs);
    EncodeNothing(attrs);
    EndFromHolds(b, tag, attrs, 0);
  }

  // Setting an attribute, as byte-level edits

  /** The list of attributes after a set: in place, or moved or added at the end. */
  function Updated(attrs: seq<Attr>, a: Attr, inPlace: bool): seq<Attr> {
    var i := IndexOf(attrs, a.key);
    if i == |attrs| then attrs + [a] else if inPlace then attrs[i := a] else attrs[..i] + attrs[i + 1..] + [a]
  }

  lemma SpliceAt(x: seq<byte>, r: seq<byte>, w: seq<byte>)
    requires |w| <= |r|
    ensures Splice(x + r, |x|, w) == x + w + r[|w|..]
  {
  }

  /** A buffer that starts with the right head and attributes holds them. */
  lemma HoldsFrom(b: seq<byte>, tag: seq<byte>, attrs: seq<Attr>, slack: seq<byte>)
    requires |b| < 0x1_0000_0000 && 1 <= |tag| < 0x1_0000 && |attrs| < 0x1_0000 && 8 + |tag| < |b| && AllInRange(attrs)
    requires b == Head(|b|, tag, |attrs|) + EncodeAll(attrs) + slack
    ensures Holds(b, tag, attrs)
  {
    hide Head, EncodeAll, InRange;
    var h, e := 8 + |tag|, EncodeAll(attrs);
    assert b[..h] == Head(|b|, tag, |attrs|);
    assert b[h..h + |e|] == e;
  }

  lemma HoldsSplit(b: seq<byte>, tag: seq<byte>, attrs: seq<Attr>) returns (slack: seq<byte>)
    requires Holds(b, tag, attrs)
    ensures AllInRange(attrs) && |b| < 0x1_0000_0000 && 1 <= |tag| < 0x1_0000 && |attrs| < 0x1_0000 && 8 + |tag| < |b|
    ensures b == Head(|b|, tag, |attrs|) + EncodeAll(attrs) + slack
  {
    hide Head, EncodeAll, InRange;
    var h, e := 8 + |tag|, EncodeAll(attrs);
    slack := b[h + |e|..];
    assert b == b[..h] + b[h..h + |e|] + slack;
  }

  lemma OverwriteBytes(hd: seq<byte>, pre: seq<byte>, was: seq<byte>, post: seq<byte>, slack: seq<byte>, w: seq<byte>)
    requires |w| == |was|
    ensures Splice(hd + (pre + was + post) + slack, |hd| + |pre|, w) == hd + (pre + w + post) + slack
  {
    hide Splice;
    var x, r := hd + pre, was + post + slack;
    assert hd + (pre + was + post) + slack == x + r;
    SpliceAt(x, r, w);
    assert r[|was|..] == post + slack;
  }

  /** Same size: the attribute is overwritten where it is. */
  lemma OverwriteHolds(b: seq<byte>, tag: seq<byte>, attrs: seq<Attr>, i: nat, a: Attr)
    requires Holds(b, tag, attrs) && i < |attrs| && AllInRange(attrs) && InRange(a) && |Encode(a)| == |Encode(attrs[i])|
    requires Offset(tag, attrs, i) + |Encode(a)| <= |b|
    ensures Holds(Splice(b, Offset(tag, attrs, i), Encode(a)), tag, attrs[i := a])
  {
    hide Head, EncodeAll, InRange, Encode, Holds, Splice;
    var slack := HoldsSplit(b, tag, attrs);
    var attrs' := attrs[i := a];
    SplitAt(attrs, i);
    SplitAt(attrs', i);
    assert attrs'[..i] == attrs[..i] && attrs'[i + 1..] == attrs[i + 1..];
    OverwriteBytes(Head(|b|, tag, |attrs|), EncodeAll(attrs[..i]), Encode(attrs[i]), EncodeAll(attrs[i + 1..]), slack,
                   Encode(a));
    HoldsFrom(Splice(b, Offset(tag, attrs, i), Encode(a)), tag, attrs', slack);
  }

  lemma CompactBytes(hd: seq<byte>, pre: seq<byte>, was: seq<byte>, post: seq<byte>, slack: seq<byte>, w: seq<byte>)
    returns (slack': seq<byte>)
    requires |w| <= |was| + |slack|
    ensures Splice(Splice(hd + (pre + was + post) + slack, |hd| + |pre|, post), |hd| + |pre| + |post|, w)
            == hd + (pre + post + w) + slack'
  {
    hide Splice;
    var x, r := hd + pre, was + post + slack;
    assert hd + (pre + was + post) + slack == x + r;
    SpliceAt(x, r, post);
    SpliceAt(x + post, r[|post|..], w);
    slack' := r[|post|..][|w|..];
    assert x + post + w + slack' == hd + (pre + post + w) + slack';
  }

  /** Another size that fits: later attributes move down and the new one goes behind them. */
  lemma CompactHolds(b: seq<byte>, tag: seq<byte>, attrs: seq<Attr>, i: nat, a: Attr, b1: seq<byte>, b2: seq<byte>)
    requires Holds(b, tag, attrs) && i < |attrs| && InRange(a) && AllInRange(attrs)
    requires var p, q, end := Offset(tag, attrs, i), Offset(tag, attrs, i + 1), 8 + |tag| + |EncodeAll(attrs)|;
             && p <= q <= end <= |b| && b1 == Splice(b, p, b[q..end])
             && p + (end - q) + |Encode(a)| <= |b| && b2 == Splice(b1, p + (end - q), Encode(a))
    ensures Holds(b2, tag, attrs[..i] + attrs[i + 1..] + [a])
  {
    hide Head, EncodeAll, InRange, Encode, Holds, Splice;
    AttrAt(b, tag, attrs, i);
    var slack := HoldsSplit(b, tag, attrs);
    SplitAt(attrs, i);
    var slack' := CompactBytes(Head(|b|, tag, |attrs|), EncodeAll(attrs[..i]), Encode(attrs[i]),
                               EncodeAll(attrs[i + 1..]), slack, Encode(a));
    MovedEncoding(attrs, i, a);
    HoldsFrom(b2, tag, attrs[..i] + attrs[i + 1..] + [a], slack');
  }

  lemma MovedEncoding(attrs: seq<Attr>, i: nat, a: Attr)
    requires AllInRange(attrs) && i < |attrs| && InRange(a)
    ensures var moved := attrs[..i] + attrs[i + 1..] + [a];
            && |moved| == |attrs| && AllInRange(moved)
            && EncodeAll(moved) == EncodeAll(attrs[..i]) + EncodeAll(attrs[i + 1..]) + Encode(a)
  {
    hide EncodeAll, InRange, Encode;
    EncodeAllConcat(attrs[..i], attrs[i + 1..]);
    EncodeAllConcat(attrs[..i] + attrs[i + 1..], [a]);
    EncodeAllOne(a);
  }

  lemma AppendedEncoding(attrs: seq<Attr>, a: Attr)
    requires AllInRange(attrs) && InRange(a)
    ensures AllInRange(attrs + [a]) && EncodeAll(attrs + [a]) == EncodeAll(attrs) + Encode(a)
  {
    hide EncodeAll, InRange, Encode;
    EncodeAllConcat(attrs, [a]);
    EncodeAllOne(a);
  }

  /** Rewriting the count field of a head. */
  lemma HeadCount(total: uint32, tag: seq<byte>, num: uint16, num': uint16, rest: seq<byte>)
    requires |tag| < 0x1_0000
    ensures Splice(Head(total, tag, num) + rest, 6 + |tag|, LE16(num')) == Head(total, tag, num') + rest
  {
    hide LE32, LE16;
    var x := LE32(total) + LE16(|tag|) + tag;
    assert Head(total, tag, num) + rest == x + (LE16(num) + rest);
    SpliceAt(x, LE16(num) + rest, LE16(num'));
    assert (LE16(num) + rest)[2..] == rest;
  }

  /** Rewriting the total length field of a head. */
  lemma HeadTotal(total: uint32, total': uint32, tag: seq<byte>, num: uint16, rest: seq<byte>)
    requires |tag| < 0x1_0000
    ensures Splice(Head(total, tag, num) + rest, 0, LE32(total')) == Head(total', tag, num) + rest
  {
    hide LE32, LE16, Splice;
    var y := LE16(|tag|) + tag + LE16(num) + rest;
    assert Head(total, tag, num) + rest == [] + (LE32(total) + y);
    SpliceAt([], LE32(total) + y, LE32(total'));
    assert (LE32(total) + y)[4..] == y;
    assert [] + LE32(total') + y == Head(total', tag, num) + rest;
  }

  lemma AppendBytes(hd: seq<byte>, e: seq<byte>, slack: seq<byte>, w: seq<byte>)
    requires |w| <= |slack|
    ensures Splice(hd + e + slack, |hd| + |e|, w) == hd + (e + w + slack[|w|..])
  {
    hide Splice;
    SpliceAt(hd + e, slack, w);
  }

  /** A new key that fits: it goes behind the others and the count goes up. */
  lemma AppendHolds(b: seq<byte>, tag: seq<byte>, attrs: seq<Attr>, a: Attr, b1: seq<byte>, b2: seq<byte>)
    requires Holds(b, tag, attrs) && InRange(a) && AllInRange(attrs) && |attrs| + 1 < 0x1_0000 && |tag| < 0x1_0000
    requires var end := 8 + |tag| + |EncodeAll(attrs)|;
             && end + |Encode(a)| <= |b| && b1 == Splice(b, end, Encode(a))
             && b2 == Splice(b1, 6 + |tag|, LE16(|attrs| + 1))
    ensures Holds(b2, tag, attrs + [a])
  {
    hide Head, EncodeAll, InRange, Encode, Holds, Splice, LE16;
    var slack := HoldsSplit(b, tag, attrs);
    var hd, e := Head(|b|, tag, |attrs|), EncodeAll(attrs);
    var slack' := slack[|Encode(a)|..];
    AppendBytes(hd, e, slack, Encode(a));
    AppendedEncoding(attrs, a);
    HeadCount(|b|, tag, |attrs|, |attrs| + 1, e + Encode(a) + slack');
    Associate(Head(|b|, tag, |attrs| + 1), e + Encode(a), slack');
    HoldsFrom(b2, tag, attrs + [a], slack');
  }

  lemma RegrowBytes(c: seq<byte>, hd: seq<byte>, pre: seq<byte>, post: seq<byte>, w: seq<byte>)
    returns (rest: seq<byte>)
    requires |hd| + |pre| + |post| + |w| <= |c|
    ensures Splice(Splice(Splice(c, 0, hd + pre), |hd + pre|, post), |hd + pre| + |post|, w)
            == hd + (pre + post + w + rest)
  {
    hide Splice;
    var x := hd + pre;
    assert [] + c == c && [] + x == x;
    SpliceAt([], c, x);
    SpliceAt(x, c[|x|..], post);
    rest := c[|x|..][|post|..][|w|..];
    SpliceAt(x + post, c[|x|..][|post|..], w);
    assert x + post + w + rest == hd + (pre + post + w + rest);
  }

  /** A bigger block for an existing key: everything else is copied, then the new attribute, then the total length. */
  lemma RegrowHolds(b: seq<byte>, tag: seq<byte>, attrs: seq<Attr>, i: nat, a: Attr, c: seq<byte>, c3: seq<byte>,
                    c4: seq<byte>)
    requires Holds(b, tag, attrs) && i < |attrs| && InRange(a) && AllInRange(attrs)
    requires |b| + |Encode(a)| <= |c| < 0x1_0000_0000
    requires var p, q, end := Offset(tag, attrs, i), Offset(tag, attrs, i + 1), 8 + |tag| + |EncodeAll(attrs)|;
             && p <= q <= end <= |b|
             && c3 == Splice(Splice(Splice(c, 0, b[..p]), p, b[q..end]), p + (end - q), Encode(a))
             && c4 == Splice(c3, 0, LE32(|c|))
    ensures Holds(c4, tag, attrs[..i] + attrs[i + 1..] + [a])
  {
    hide Head, EncodeAll, InRange, Encode, Holds, Splice, LE32;
    AttrAt(b, tag, attrs, i);
    var slack := HoldsSplit(b, tag, attrs);
    var hd, pre, was, post := Head(|b|, tag, |attrs|), EncodeAll(attrs[..i]), Encode(attrs[i]),
      EncodeAll(attrs[i + 1..]);
    SplitAt(attrs, i);
    FrontOf(hd, pre, was, post, slack);
    var rest := RegrowBytes(c, hd, pre, post, Encode(a));
    MovedEncoding(attrs, i, a);
    HeadTotal(|b|, |c|, tag, |attrs|, pre + post + Encode(a) + rest);
    Associate(Head(|c|, tag, |attrs|), pre + post + Encode(a), rest);
    HoldsFrom(c4, tag, attrs[..i] + attrs[i + 1..] + [a], rest);
  }

  lemma FrontOf(hd: seq<byte>, pre: seq<byte>, was: seq<byte>, post: seq<byte>, slack: seq<byte>)
    ensures var b := hd + (pre + was + post) + slack; b[..|hd| + |pre|] == hd + pre
  {
    assert hd + (pre + was + post) + slack == (hd + pre) + (was + post + slack);
  }

  lemma ExtendBytes(c: seq<byte>, hd: seq<byte>, e: seq<byte>, w: seq<byte>) returns (rest: seq<byte>)
    requires |hd| + |e| + |w| <= |c|
    ensures Splice(Splice(c, 0, hd + e), |hd + e|, w) == hd + (e + w + rest)
  {
    hide Splice;
    var x := hd + e;
    assert [] + c == c && [] + x == x;
    SpliceAt([], c, x);
    rest := c[|x|..][|w|..];
    SpliceAt(x, c[|x|..], w);
    assert x + w + rest == hd + (e + w + rest);
  }

  /** A bigger block for a new key. */
  lemma ExtendHolds(b: seq<byte>, tag: seq<byte>, attrs: seq<Attr>, a: Attr, c: seq<byte>, c2: seq<byte>, c3: seq<byte>,
                    c4: seq<byte>)
    requires Holds(b, tag, attrs) && InRange(a) && AllInRange(attrs) && |attrs| + 1 < 0x1_0000 && |tag| < 0x1_0000
    requires |b| + |Encode(a)| <= |c| < 0x1_0000_0000
    requires var end := 8 + |tag| + |EncodeAll(attrs)|;
             && end <= |b| && c2 == Splice(Splice(c, 0, b[..end]), end, Encode(a))
             && c3 == Splice(c2, 6 + |tag|, LE16(|attrs| + 1)) && c4 == Splice(c3, 0, LE32(|c|))
    ensures Holds(c4, tag, attrs + [a])
  {
    hide Head, EncodeAll, InRange, Encode, Holds, Splice, LE16, LE32;
    var slack := HoldsSplit(b, tag, attrs);
    var hd, e := Head(|b|, tag, |attrs|), EncodeAll(attrs);
    assert b[..|hd| + |e|] == hd + e;
    var rest := ExtendBytes(c, hd, e, Encode(a));
    AppendedEncoding(attrs, a);
    HeadCount(|b|, tag, |attrs|, |attrs| + 1, e + Encode(a) + rest);
    HeadTotal(|b|, |c|, tag, |attrs| + 1, e + Encode(a) + rest);
    Associate(Head(|c|, tag, |attrs| + 1), e + Encode(a), rest);
    HoldsFrom(c4, tag, attrs + [a], rest);
  }
}
