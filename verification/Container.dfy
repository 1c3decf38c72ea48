/**
 The attribute container as the source keeps it: one heap block, edited in place and replaced when it is too small.
 Every storage path of `attr_container_set_attr` refines an update of the map the container stands for.
 */
module Container {
  import opened Bytes
  import opened Attributes

  // The map behind a list of attributes

  function Keys(attrs: seq<Attr>): set<seq<byte>> {
    set i | 0 <= i < |attrs| :: attrs[i].key
  }

  function ToMap(attrs: seq<Attr>): (m: map<seq<byte>, (byte, seq<byte>)>) {
    map k | k in Keys(attrs) :: (attrs[IndexOf(attrs, k)].kind, attrs[IndexOf(attrs, k)].value)
  }

  lemma KeyIndex(attrs: seq<Attr>, k: seq<byte>)
    ensures k in Keys(attrs) <==> IndexOf(attrs, k) < |attrs|
  {
  }

  /** With distinct keys an attribute is where its key is looked up. */
  lemma IndexIsUnique(attrs: seq<Attr>, i: nat)
    requires Distinct(attrs) && i < |attrs|
    ensures IndexOf(attrs, attrs[i].key) == i
  {
    var j := IndexOf(attrs, attrs[i].key);
    assert j <= i;
  }

  /** The attribute count is the size of the map. */
  lemma {:induction false} CountIsMapSize(attrs: seq<Attr>)
    requires Distinct(attrs)
    ensures |ToMap(attrs)| == |attrs|
  {
    assert ToMap(attrs).Keys == Keys(attrs);
    CountKeys(attrs);
  }

  lemma {:induction false} CountKeys(attrs: seq<Attr>)
    requires Distinct(attrs)
    ensures |Keys(attrs)| == |attrs|
  {
    if attrs != [] {
      var n := |attrs| - 1;
      var front := attrs[..n];
      CountKeys(front);
      assert Keys(attrs) == Keys(front) + {attrs[n].key} by {
        assert forall i | 0 <= i < n :: front[i] == attrs[i];
      }
      assert attrs[n].key !in Keys(front);
    }
  }

  /** A set keeps keys distinct and changes the meaning of its own key only. */
  lemma UpdatedMeaning(attrs: seq<Attr>, a: Attr, inPlace: bool, k: seq<byte>)
    requires Distinct(attrs)
    ensures Distinct(Updated(attrs, a, inPlace))
    ensures Meaning(Updated(attrs, a, inPlace), k) == if k == a.key then Some((a.kind, a.value)) else Meaning(attrs, k)
  {
    hide Updated, Distinct;
    var us := Updated(attrs, a, inPlace);
    UpdatedDistinct(attrs, a, inPlace);
    UpdatedEntries(attrs, a, inPlace);
    var j := IndexOf(attrs, k);
    if k == a.key {
      var n :| 0 <= n < |us| && us[n] == a;
      IndexIsUnique(us, n);
    } else if j < |attrs| {
      var n :| 0 <= n < |us| && us[n] == attrs[j];
      IndexIsUnique(us, n);
    } else {
      assert forall n | 0 <= n < |us| :: us[n].key != k;
    }
  }

  /** The list after a set: the attribute set, and all that have another key. */
  lemma UpdatedEntries(attrs: seq<Attr>, a: Attr, inPlace: bool)
    ensures a in Updated(attrs, a, inPlace)
    ensures forall j | 0 <= j < |attrs| && attrs[j].key != a.key :: attrs[j] in Updated(attrs, a, inPlace)
    ensures forall n | 0 <= n < |Updated(attrs, a, inPlace)| :: Updated(attrs, a, inPlace)[n] in attrs + [a]
  {
    var us, i := Updated(attrs, a, inPlace), IndexOf(attrs, a.key);
    assert us[if i < |attrs| && inPlace then i else |us| - 1] == a;
    forall j | 0 <= j < |attrs| && attrs[j].key != a.key ensures attrs[j] in us {
      assert us[if i == |attrs| || inPlace || j < i then j else j - 1] == attrs[j];
    }
  }

  lemma UpdatedDistinct(attrs: seq<Attr>, a: Attr, inPlace: bool)
    requires Distinct(attrs)
    ensures Distinct(Updated(attrs, a, inPlace))
  {
    var us, i := Updated(attrs, a, inPlace), IndexOf(attrs, a.key);
    assert forall j | 0 <= j < |attrs| && j != i :: attrs[j].key != a.key;
    if i < |attrs| && !inPlace {
      assert forall n | 0 <= n < |us| - 1 :: us[n] == attrs[if n < i then n else n + 1];
    }
  }

  /** On every path the container's map is the old map updated at the key. */
  lemma UpdatedMap(attrs: seq<Attr>, a: Attr, inPlace: bool)
    requires Distinct(attrs)
    ensures Distinct(Updated(attrs, a, inPlace))
    ensures ToMap(Updated(attrs, a, inPlace)) == ToMap(attrs)[a.key := (a.kind, a.value)]
  {
    hide Updated;
    var us := Updated(attrs, a, inPlace);
    UpdatedMeaning(attrs, a, inPlace, a.key);
    var m, m' := ToMap(attrs)[a.key := (a.kind, a.value)], ToMap(us);
    forall k
      ensures k in m <==> k in m'
      ensures k in m' ==> m'[k] == m[k]
    {
      UpdatedMeaning(attrs, a, inPlace, k);
      KeyIndex(us, k);
      KeyIndex(attrs, k);
    }
  }

  /** What a reader gets from a buffer is what the map says. */
  lemma LookupIsMap(b: seq<byte>, tag: seq<byte>, attrs: seq<Attr>, key: seq<byte>)
    requires Holds(b, tag, attrs)
    ensures Lookup(b, key) == if key in ToMap(attrs) then Some(ToMap(attrs)[key]) else None
  {
    hide Lookup, Holds;
    LookupHolds(b, tag, attrs, key);
    KeyIndex(attrs, key);
  }

  // The container

  /** `flags & ATTR_CONT_READONLY_SHIFT`: the shift constant 2 is used as the mask, so bit 1 is tested. */
  predicate Refused(flags: uint16) {
    flags / 2 % 2 == 1
  }

  /** The attribute fits the block of `length` bytes once an attribute with its key is dropped. */
  predicate Fits(length: nat, tag: seq<byte>, attrs: seq<Attr>, a: Attr)
    requires AllInRange(attrs) && InRange(a)
  {
    var i := IndexOf(attrs, a.key);
    8 + |tag| + |EncodeAll(attrs)| - (if i < |attrs| then |Encode(attrs[i])| else 0) + |Encode(a)| <= length
  }

  class AttrContainer {
    var flags: uint16
    var data: array<byte>
    ghost var tag: seq<byte>
    ghost var attrs: seq<Attr>

    ghost predicate Valid()
      reads this, data
    {
      Holds(data[..], tag, attrs) && Distinct(attrs)
    }

    /** `attr_container_create`: an empty container with 100 reserved bytes, two of them the attribute count. */
    constructor (name: seq<byte>)
      requires 0 !in name && |name| + 1 < 0x1_0000
      ensures Valid() && fresh(data) && attrs == [] && tag == name + [0] && flags == 0
      ensures data.Length == 107 + |name|
    {
      hide LE16, LE32;
      var tagLength := |name| + 1;
      var length := 4 + 2 + tagLength + 100;
      flags := 0;
      data := new byte[length](_ => 0);
      tag, attrs := name + [0], [];
      new;
      ghost var zero := data[..];
      Store(data, 0, LE32(length));
      Store(data, 4, LE16(tagLength));
      Store(data, 6, name);
      ghost var b := data[..];
      assert b[..4] == LE32(length) && b[4..6] == LE16(tagLength) && b[6..6 + |name|] == name;
      assert b[6 + |name|..] == zero[6 + |name|..];
      CreatedHolds(b, name);
    }

    /** `attr_container_find_attr`. */
    method Find(key: seq<byte>) returns (r: Option<nat>)
      ensures r == FindAttr(data[..], key)
      ensures r.Some? ==>
                var p, n := r.value, |key| + 1;
                && 4 <= data.Length && p + 2 + n <= data.Length && p + 2 + n < FromLE32(data[..4])
                && FromLE16(data[p..p + 2]) == n && data[p + 2..p + 2 + n] == key + [0]
    {
      hide FromLE16, FromLE32, AttrNext;
      var begin := AttrBegin(data[..]);
      if begin == None {
        return None;
      }
      var p: nat, num := begin.value.0, begin.value.1;
      var i := 0;
      while i < num
        invariant 0 <= i <= num
        invariant FindFrom(data[..], p, num - i, key) == FindAttr(data[..], key)
      {
        if p + 2 > data.Length || FromLE16(data[..][p..p + 2]) == 0 {
          return None;
        }
        if KeyAt(data[..], p, key) {
          return if EndsInside(data[..], p, key) then Some(p) else None;
        }
        var next := AttrNext(data[..], p);
        if next == None {
          return None;
        }
        p := next.value;
        i := i + 1;
      }
      r := None;
    }

    /** `attr_container_get_attr_end`. */
    method End() returns (r: Option<nat>)
      ensures r == AttrEnd(data[..])
    {
      hide FromLE16, FromLE32, AttrNext;
      var begin := AttrBegin(data[..]);
      if begin == None {
        return None;
      }
      var p: nat, num := begin.value.0, begin.value.1;
      var i := 0;
      while i < num
        invariant 0 <= i <= num
        invariant EndFrom(data[..], p, num - i) == AttrEnd(data[..])
      {
        var next := AttrNext(data[..], p);
        if next == None {
          return None;
        }
        p := next.value;
        i := i + 1;
      }
      r := Some(p);
    }

    /** The attribute is first put together in a buffer of its own. */
    method MakeAttr(a: Attr) returns (buf: array<byte>)
      requires InRange(a)
      ensures fresh(buf) && buf[..] == Encode(a)
    {
      hide LE16, LE32;
      buf := new byte[4 + |a.key| + |LengthField(a)| + |a.value|];
      var p := Append(buf, 0, LE16(|a.key| + 1));
      p := Append(buf, p, a.key + [0]);
      p := Append(buf, p, [a.kind]);
      p := Append(buf, p, LengthField(a));
      p := Append(buf, p, a.value);
      assert buf[..] == buf[..p];
    }

    /** Increments the count field behind the tag. */
    method IncAttrNum(block: array<byte>)
      requires block.Length >= 8 + |tag| && 1 <= |tag| < 0x1_0000 && FromLE16(block[4..6]) == |tag|
      requires FromLE16(block[6 + |tag|..8 + |tag|]) < 0xFFFF
      modifies block
      ensures block[..] == Splice(old(block[..]), 6 + |tag|, LE16(old(FromLE16(block[6 + |tag|..8 + |tag|])) + 1))
    {
      hide FromLE16, LE16;
      var p := 6 + FromLE16(block[4..6]) as int;
      var num := FromLE16(block[p..p + 2]);
      Store(block, p, LE16(num + 1));
    }

    /**
     `attr_container_set_attr`. `bufOk` and `newOk` say whether the two allocations succeed.
     A set that is refused or fails changes nothing; any other refines a map update.
     */
    method SetAttr(a: Attr, bufOk: bool, newOk: bool) returns (ok: bool)
      requires Valid() && (a.key != [] ==> InRange(a))
      requires a.key != [] ==> data.Length + |Encode(a)| + 100 < 0x1_0000_0000
      requires a.key !in ToMap(attrs) ==> |attrs| < 0xFFFF
      modifies this, data
      ensures Valid() && (data == old(data) || fresh(data))
      ensures flags == old(flags) && tag == old(tag)
      ensures ok ==> ToMap(attrs) == old(ToMap(attrs))[a.key := (a.kind, a.value)]
      ensures !ok ==> data == old(data) && data[..] == old(data[..]) && attrs == old(attrs)
      ensures ok && a.key != [] ==>
                data.Length == old(data.Length) + if data == old(data) then 0 else |Encode(a)| + 100
      ensures ok && a.key != [] ==> (data == old(data) <==> old(AllInRange(attrs) && Fits(data.Length, tag, attrs, a)))
      ensures ok <==> a.key != [] && flags / 2 % 2 == 0 && bufOk
                      && (newOk || old(AllInRange(attrs) && Fits(data.Length, tag, attrs, a)))
    {
      hide Encode, EncodeAll, InRange, Holds, Splice, ToMap, Updated, LE16, LE32, FromLE16, FromLE32, FindAttr,
           AttrNext, AttrEnd, Fits;
      if a.key == [] || Refused(flags) {
        return false;
      }
      var attrEnd := End();
      WalkEnds(data[..], tag, attrs);
      if !bufOk {
        return false;
      }
      var attrBuf := MakeAttr(a);
      var found := Find(a.key);
      if found != None {
        ok := SetExisting(a, attrBuf[..], found.value, attrEnd.value, newOk);
      } else {
        ok := SetNew(a, attrBuf[..], attrEnd.value, newOk);
      }
    }

    /** The key is there: overwrite in place, or compact and put the attribute last, or move to a bigger block. */
    method SetExisting(a: Attr, attr: seq<byte>, p: nat, attrEnd: nat, newOk: bool) returns (ok: bool)
      requires Valid() && InRange(a) && attr == Encode(a) && FindAttr(data[..], a.key) == Some(p)
      requires AllInRange(attrs) && attrEnd == 8 + |tag| + |EncodeAll(attrs)|
      requires data.Length + |attr| + 100 < 0x1_0000_0000
      modifies this, data
      ensures Valid() && (data == old(data) || fresh(data))
      ensures flags == old(flags) && tag == old(tag)
      ensures ok ==> ToMap(attrs) == old(ToMap(attrs))[a.key := (a.kind, a.value)]
      ensures !ok ==> data == old(data) && data[..] == old(data[..]) && attrs == old(attrs)
      ensures ok ==> data.Length == old(data.Length) + if data == old(data) then 0 else |attr| + 100
      ensures data == old(data) <==> !ok || old(Fits(data.Length, tag, attrs, a))
      ensures ok <==> newOk || old(Fits(data.Length, tag, attrs, a))
    {
      hide Encode, EncodeAll, InRange, Holds, Splice, ToMap, LE16, LE32, FromLE16, FromLE32, FindAttr, AttrNext,
           IndexOf;
      ghost var b, i := data[..], IndexOf(attrs, a.key);
      FoundAt(b, tag, attrs, a.key, p);
      var p1 := AttrNext(data[..], p).value;
      ok := true;
      if p1 - p == |attr| {
        OverwriteHolds(b, tag, attrs, i, a);
        UpdatedMap(attrs, a, true);
        Store(data, p, attr);
        attrs := attrs[i := a];
      } else if p1 - p + (data.Length - attrEnd) >= |attr| {
        Store(data, p, data[p1..attrEnd]);
        ghost var b1 := data[..];
        Store(data, p + (attrEnd - p1), attr);
        CompactHolds(b, tag, attrs, i, a, b1, data[..]);
        UpdatedMap(attrs, a, false);
        attrs := attrs[..i] + attrs[i + 1..] + [a];
      } else {
        if !newOk {
          return false;
        }
        var total := data.Length + |attr| + 100;
        var block := new byte[total];
        ghost var c := block[..];
        Store(block, 0, data[..p]);
        Store(block, p, data[p1..attrEnd]);
        Store(block, p + (attrEnd - p1), attr);
        ghost var c3 := block[..];
        Store(block, 0, LE32(total));
        RegrowHolds(b, tag, attrs, i, a, c, c3, block[..]);
        UpdatedMap(attrs, a, false);
        data := block;
        attrs := attrs[..i] + attrs[i + 1..] + [a];
      }
    }

    /** The key is new: behind the other attributes, or in a bigger block. */
    method SetNew(a: Attr, attr: seq<byte>, attrEnd: nat, newOk: bool) returns (ok: bool)
      requires Valid() && InRange(a) && attr == Encode(a) && FindAttr(data[..], a.key) == None
      requires AllInRange(attrs) && attrEnd == 8 + |tag| + |EncodeAll(attrs)|
      requires data.Length + |attr| + 100 < 0x1_0000_0000 && (a.key !in ToMap(attrs) ==> |attrs| < 0xFFFF)
      modifies this, data
      ensures Valid() && (data == old(data) || fresh(data))
      ensures flags == old(flags) && tag == old(tag)
      ensures ok ==> ToMap(attrs) == old(ToMap(attrs))[a.key := (a.kind, a.value)]
      ensures !ok ==> data == old(data) && data[..] == old(data[..]) && attrs == old(attrs)
      ensures ok ==> data.Length == old(data.Length) + if data == old(data) then 0 else |attr| + 100
      ensures data == old(data) <==> !ok || old(Fits(data.Length, tag, attrs, a))
      ensures ok <==> newOk || old(Fits(data.Length, tag, attrs, a))
    {
      hide Encode, EncodeAll, InRange, Holds, Splice, ToMap, LE16, LE32, FromLE16, FromLE32, FindAttr, AttrNext,
           IndexOf;
      ghost var b := data[..];
      NotFound(b, tag, attrs, a.key);
      UpdatedMap(attrs, a, true);
      ok := true;
      if data.Length - attrEnd >= |attr| {
        Store(data, attrEnd, attr);
        ghost var b1 := data[..];
        CountAfterStore(b, tag, attrs, attrEnd, attr, b1);
        IncAttrNum(data);
        AppendHolds(b, tag, attrs, a, b1, data[..]);
      } else {
        if !newOk {
          return false;
        }
        var total := data.Length + |attr| + 100;
        var block := new byte[total];
        ghost var c := block[..];
        Store(block, 0, data[..attrEnd]);
        Store(block, attrEnd, attr);
        ghost var c2 := block[..];
        CountAfterCopy(b, tag, attrs, attrEnd, attr, c, c2);
        IncAttrNum(block);
        ghost var c3 := block[..];
        Store(block, 0, LE32(total));
        ExtendHolds(b, tag, attrs, a, c, c2, c3, block[..]);
        data := block;
      }
      attrs := attrs + [a];
    }

    /** `attr_container_serialize`: flags with the read-only bit set, then the buffer. */
    method Serialize() returns (out: seq<byte>)
      requires Valid()
      ensures |out| == 2 + data.Length && out[2..] == data[..] && FromLE16(out[..2]) / 4 % 2 == 1
      ensures FromLE16(out[..2]) == flags || FromLE16(out[..2]) == flags + 4
      ensures forall key :: Lookup(out[2..], key) == if key in ToMap(attrs) then Some(ToMap(attrs)[key]) else None
    {
      hide ToMap, Lookup, Holds, LE16, FromLE16, ReadOnly;
      var readOnly := ReadOnly(flags);
      out := LE16(readOnly) + data[..];
      Image16(readOnly, [0, 0]);
      assert out[..2] == LE16(readOnly) && out[2..] == data[..];
      forall key
        ensures Lookup(out[2..], key) == if key in ToMap(attrs) then Some(ToMap(attrs)[key]) else None
      {
        LookupIsMap(data[..], tag, attrs, key);
      }
    }
  }

  /** The flags with bit 2 set. */
  function ReadOnly(flags: uint16): (r: uint16)
    ensures r / 4 % 2 == 1 && (r == flags || r == flags + 4)
  {
    if flags / 4 % 2 == 1 then flags else flags + 4
  }

  lemma FoundAt(b: seq<byte>, tag: seq<byte>, attrs: seq<Attr>, key: seq<byte>, p: nat)
    requires Holds(b, tag, attrs) && FindAttr(b, key) == Some(p) && AllInRange(attrs)
    ensures var i := IndexOf(attrs, key);
            && i < |attrs| && p == Offset(tag, attrs, i) && AttrNext(b, p) == Some(Offset(tag, attrs, i + 1))
            && Offset(tag, attrs, i + 1) == p + |Encode(attrs[i])| <= 8 + |tag| + |EncodeAll(attrs)| <= |b|
  {
    hide Encode, EncodeAll, Holds, FromLE16, AttrNext, LE16, LE32, FindFrom, InRange, FromLE32;
    HeadRead(b, tag, attrs);
    EncodeNothing(attrs);
    FindFromHolds(b, tag, attrs, 0, key);
    var i := IndexOf(attrs, key);
    AttrAt(b, tag, attrs, i);
    ReadEncoded(b, p, attrs[i]);
  }

  lemma NotFound(b: seq<byte>, tag: seq<byte>, attrs: seq<Attr>, key: seq<byte>)
    requires Holds(b, tag, attrs) && FindAttr(b, key) == None && AllInRange(attrs)
    ensures IndexOf(attrs, key) == |attrs| && key !in ToMap(attrs) && 8 + |tag| + |EncodeAll(attrs)| <= |b|
            && 1 <= |tag| < 0x1_0000
  {
    hide Encode, EncodeAll, FromLE16, AttrNext, LE16, LE32, FindFrom, InRange, FromLE32, Head;
    HeadRead(b, tag, attrs);
    EncodeNothing(attrs);
    FindFromHolds(b, tag, attrs, 0, key);
    KeyIndex(attrs, key);
  }

  /** Storing behind the attributes leaves the head alone. */
  lemma CountAfterStore(b: seq<byte>, tag: seq<byte>, attrs: seq<Attr>, end: nat, attr: seq<byte>, b1: seq<byte>)
    requires Holds(b, tag, attrs) && 8 + |tag| <= end && end + |attr| <= |b| && b1 == Splice(b, end, attr)
    ensures FromLE16(b1[4..6]) == |tag| && FromLE16(b1[6 + |tag|..8 + |tag|]) == |attrs|
  {
    hide Holds, FromLE16, FromLE32;
    HeadRead(b, tag, attrs);
    assert b1[4..6] == b[4..6] && b1[6 + |tag|..8 + |tag|] == b[6 + |tag|..8 + |tag|];
  }

  lemma CountAfterCopy(b: seq<byte>, tag: seq<byte>, attrs: seq<Attr>, end: nat, attr: seq<byte>, c: seq<byte>,
                       c2: seq<byte>)
    requires Holds(b, tag, attrs) && 8 + |tag| <= end <= |b| && end + |attr| <= |c|
    requires c2 == Splice(Splice(c, 0, b[..end]), end, attr)
    ensures FromLE16(c2[4..6]) == |tag| && FromLE16(c2[6 + |tag|..8 + |tag|]) == |attrs|
  {
    hide Holds, FromLE16, FromLE32;
    HeadRead(b, tag, attrs);
    assert c2[4..6] == b[4..6] && c2[6 + |tag|..8 + |tag|] == b[6 + |tag|..8 + |tag|];
  }

  lemma CreatedHolds(b: seq<byte>, name: seq<byte>)
    requires 0 !in name && |name| + 1 < 0x1_0000 && |b| == 107 + |name|
    requires b[..4] == LE32(|b|) && b[4..6] == LE16(|name| + 1) && b[6..6 + |name|] == name
    requires forall i | 6 + |name| <= i < |b| :: b[i] == 0
    ensures Holds(b, name + [0], [])
  {
    hide LE32;
    var h := 9 + |name|;
    assert b[..h] == b[..4] + b[4..6] + b[6..6 + |name|] + b[6 + |name|..h];
    assert b[6 + |name|..h] == [0] + LE16(0);
    assert b[..h] == Head(|b|, name + [0], 0);
    assert b[h..h] == [];
  }
}
