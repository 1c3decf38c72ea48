/**
 URL prefix matching and the key/value reader:
 core/app-framework/app-native-shared/restful_utils.c. Strings are NUL-free byte sequences.
 */
module Urls {
  import opened Bytes

  const SLASH: byte := 0x2F
  const QUERY: byte := 0x3F

  /** `check_url_start`: 0 when `url` does not start with `leading`, else the offset just past the match. */
  function CheckUrlStart(url: seq<byte>, leading: seq<byte>): (r: nat)
  {
    var lead := if leading != [] && leading[0] == SLASH then leading[1..] else leading;
    var offset := if url != [] && url[0] == SLASH then 1 else 0;
    var u := url[offset..];
    if lead == [] then 0
    else
      var len := if lead[|lead| - 1] == SLASH then |lead| - 1 else |lead|;
      if len == 0 then 0
      else if |u| == len then (if u == lead[..len] then offset + len else 0)
      else if |u| < len then 0
      else if u[..len] != lead[..len] then 0
      else if u[len] != SLASH && u[len] != QUERY then 0
      else offset + len + 1
  }

  /** One leading slash dropped. */
  function Rooted(s: seq<byte>): seq<byte> {
    if s != [] && s[0] == SLASH then s[1..] else s
  }

  /** One leading and then one trailing slash dropped. */
  function Path(s: seq<byte>): seq<byte> {
    var r := Rooted(s);
    if r != [] && r[|r| - 1] == SLASH then r[..|r| - 1] else r
  }

  /** `rest` may follow a whole path segment. */
  predicate Boundary(rest: seq<byte>) {
    rest == [] || rest[0] == SLASH || rest[0] == QUERY
  }

  /** `url` is `path` followed by the end, a slash or a query. */
  ghost predicate WholeSegmentPrefix(path: seq<byte>, url: seq<byte>) {
    exists rest :: url == path + rest && Boundary(rest)
  }

  /**
   The match is exactly the whole-segment prefix relation between the normalised path and URL.
   A match returns a position of the URL; what precedes it is the path, with its boundary character if there is one.
   */
  lemma CheckUrlStartCorrect(url: seq<byte>, leading: seq<byte>)
    ensures var r, path := CheckUrlStart(url, leading), Path(leading);
            && (r > 0 <==> path != [] && WholeSegmentPrefix(path, Rooted(url)))
            && r <= |url|
            && (r > 0 ==>
                  && Rooted(url)[..|path|] == path
                  && url[r..] == (if |Rooted(url)| == |path| then [] else Rooted(url)[|path| + 1..]))
  {
    var r, path, u := CheckUrlStart(url, leading), Path(leading), Rooted(url);
    if r > 0 {
      assert u == path + u[|path|..];
      assert Boundary(u[|path|..]);
    }
    if path != [] && WholeSegmentPrefix(path, u) {
      var rest :| u == path + rest && Boundary(rest);
      assert u[..|path|] == path;
    }
  }

  const SPACE: byte := 0x20
  const EQ: byte := 0x3D

  predicate IsFill(b: byte, delim: byte) {
    b == SPACE || b == delim
  }

  /** Drops spaces and delimiters. */
  function SkipFill(s: seq<byte>, delim: byte): (r: seq<byte>)
    ensures |r| <= |s| && (r == [] || !IsFill(r[0], delim))
  {
    if s != [] && IsFill(s[0], delim) then SkipFill(s[1..], delim) else s
  }

  /** Everything before the next delimiter. */
  function UntilDelim(s: seq<byte>, delim: byte): (r: seq<byte>)
    ensures |r| <= |s| && r == s[..|r|] && delim !in r
    ensures |r| < |s| ==> s[|r|] == delim
  {
    if s == [] || s[0] == delim then [] else [s[0]] + UntilDelim(s[1..], delim)
  }

  /** The text starts with `key` and an equals sign. */
  predicate AtKey(s: seq<byte>, key: seq<byte>) {
    |key| < |s| && s[..|key|] == key && s[|key|] == EQ
  }

  /** The value that a scan of the remaining text `s` finds. */
  function Scan(s: seq<byte>, key: seq<byte>, delim: byte): Option<seq<byte>>
    decreases |s|
  {
    if s == [] then None
    else
      var t := SkipFill(s, delim);
      if |t| <= |key| then None
      else if AtKey(t, key) then Some(UntilDelim(t[|key| + 1..], delim))
      else
        assert UntilDelim(t, delim) != [];
        Scan(t[|UntilDelim(t, delim)|..], key, delim)
  }

  /** `find_key_value` on a NUL-terminated buffer whose length is `strlen`; `value` is the result buffer. */
  method FindKeyValue(buffer: seq<byte>, key: seq<byte>, value: array<byte>, delim: byte) returns (found: bool)
    requires 0 !in buffer && delim != 0
    modifies value
    ensures found == Scan(buffer, key, delim).Some?
    ensures !found ==> value[..] == old(value[..])
    ensures found ==> forall i | 0 <= i < value.Length ::
                        value[i] == if i < |Scan(buffer, key, delim).value| && i < value.Length - 1
                                    then Scan(buffer, key, delim).value[i] else 0
  {
    hide SkipFill, UntilDelim;
    var p := 0;
    while p < |buffer|
      invariant p <= |buffer|
      invariant Scan(buffer[p..], key, delim) == Scan(buffer, key, delim)
      invariant value[..] == old(value[..])
    {
      p := PassFill(buffer, p, delim);
      ghost var t := buffer[p..];
      if |buffer| - p <= |key| {
        return false;
      }
      assert t[..|key|] == buffer[p..p + |key|];
      if buffer[p..p + |key|] == key && buffer[p + |key|] == EQ {
        assert AtKey(t, key) && t[|key| + 1..] == buffer[p + |key| + 1..];
        CopyValue(buffer[p + |key| + 1..], value, delim);
        return true;
      }
      assert !AtKey(t, key);
      p := PassItem(buffer, p, delim);
    }
    found := false;
  }

  /** The inner loop over spaces and delimiters. */
  method PassFill(buffer: seq<byte>, p: nat, delim: byte) returns (q: nat)
    requires p <= |buffer|
    ensures p <= q <= |buffer| && buffer[q..] == SkipFill(buffer[p..], delim)
  {
    q := p;
    while q < |buffer| && IsFill(buffer[q], delim)
      invariant p <= q <= |buffer|
      invariant SkipFill(buffer[q..], delim) == SkipFill(buffer[p..], delim)
    {
      assert buffer[q..][1..] == buffer[q + 1..];
      q := q + 1;
    }
  }

  /** The inner loop to the next delimiter. */
  method PassItem(buffer: seq<byte>, p: nat, delim: byte) returns (q: nat)
    requires p <= |buffer|
    ensures p <= q <= |buffer| && buffer[q..] == buffer[p..][|UntilDelim(buffer[p..], delim)|..]
  {
    q := p;
    ghost var n := p + |UntilDelim(buffer[p..], delim)|;
    assert forall i | p <= i < n :: buffer[i] == UntilDelim(buffer[p..], delim)[i - p];
    while q < |buffer| && buffer[q] != delim
      invariant p <= q <= n
    {
      q := q + 1;
    }
  }

  /** The value-copying tail of `find_key_value`. */
  method CopyValue(text: seq<byte>, value: array<byte>, delim: byte)
    modifies value
    ensures var u := UntilDelim(text, delim);
            forall i | 0 <= i < value.Length :: value[i] == if i < |u| && i < value.Length - 1 then u[i] else 0
  {
    forall i | 0 <= i < value.Length {
      value[i] := 0;
    }
    ghost var u := UntilDelim(text, delim);
    assert forall i | 0 <= i < |u| :: text[i] == u[i];
    var v := 0;
    while v < |text| && text[v] != delim && v < value.Length - 1
      invariant v <= |u| && (v == 0 || v < value.Length)
      invariant forall i :: 0 <= i < v ==> value[i] == u[i]
      invariant forall i :: v <= i < value.Length ==> value[i] == 0
    {
      value[v] := text[v];
      v := v + 1;
    }
  }

  /** One printed item: filler, key, equals sign, value. */
  datatype Pair = Pair(fill: seq<byte>, key: seq<byte>, value: seq<byte>)

  predicate ValidPair(p: Pair, delim: byte) {
    && (forall b | b in p.fill :: IsFill(b, delim))
    && EQ !in p.key && delim !in p.key && (p.key != [] ==> p.key[0] != SPACE)
    && delim !in p.value
  }

  /** Filler after a value starts with the delimiter that ends the value. */
  predicate ValidList(pairs: seq<Pair>, tail: seq<byte>, delim: byte) {
    && delim != EQ
    && (forall p | p in pairs :: ValidPair(p, delim))
    && (forall i | 1 <= i < |pairs| :: pairs[i].fill != [] && pairs[i].fill[0] == delim)
    && (forall b | b in tail :: IsFill(b, delim))
    && (tail != [] && pairs != [] ==> tail[0] == delim)
  }

  function Item(p: Pair): seq<byte> {
    p.key + [EQ] + p.value
  }

  function Print(pairs: seq<Pair>, tail: seq<byte>): seq<byte> {
    if pairs == [] then tail else pairs[0].fill + (Item(pairs[0]) + Print(pairs[1..], tail))
  }

  /** The value of the first pair with the key: the plain meaning of a lookup. */
  function FirstValue(pairs: seq<Pair>, key: seq<byte>): Option<seq<byte>> {
    if pairs == [] then None
    else if pairs[0].key == key then Some(pairs[0].value)
    else FirstValue(pairs[1..], key)
  }

  lemma {:induction false} SkipFillPrefix(fill: seq<byte>, rest: seq<byte>, delim: byte)
    requires forall b | b in fill :: IsFill(b, delim)
    ensures SkipFill(fill + rest, delim) == SkipFill(rest, delim)
  {
    if fill == [] {
      assert fill + rest == rest;
    } else {
      assert (fill + rest)[1..] == fill[1..] + rest;
      SkipFillPrefix(fill[1..], rest, delim);
    }
  }

  lemma NothingToSkip(s: seq<byte>, delim: byte)
    requires s == [] || !IsFill(s[0], delim)
    ensures SkipFill(s, delim) == s
  {
  }

  lemma {:induction false} UntilDelimPrefix(v: seq<byte>, rest: seq<byte>, delim: byte)
    requires delim !in v && (rest == [] || rest[0] == delim)
    ensures UntilDelim(v + rest, delim) == v
  {
    if v == [] {
      assert v + rest == rest;
    } else {
      assert (v + rest)[1..] == v[1..] + rest;
      UntilDelimPrefix(v[1..], rest, delim);
    }
  }

  /** Where an item starts, the scan is at the lookup key exactly when that is the item's key. */
  lemma AtKeyIsKey(p: Pair, rest: seq<byte>, key: seq<byte>)
    requires EQ !in p.key && EQ !in key
    ensures AtKey(Item(p) + rest, key) <==> p.key == key
  {
    var t := Item(p) + rest;
    assert t[..|p.key|] == p.key && t[|p.key|] == EQ;
    assert forall i | 0 <= i < |p.key| :: t[i] == p.key[i] != EQ;
    assert AtKey(t, key) ==> forall i | 0 <= i < |key| :: t[i] == t[..|key|][i] == key[i] != EQ;
  }

  /** What follows an item is empty or starts with the delimiter. */
  lemma ListTail(pairs: seq<Pair>, tail: seq<byte>, delim: byte)
    requires pairs != [] && ValidList(pairs, tail, delim)
    ensures var rest := Print(pairs[1..], tail); ValidList(pairs[1..], tail, delim) && (rest == [] || rest[0] == delim)
  {
    if |pairs| > 1 {
      assert pairs[1..][0] == pairs[1];
    }
  }

  /** A scan of a printed list returns the value of the first pair with the key. */
  lemma {:induction false} ScanPrinted(pairs: seq<Pair>, tail: seq<byte>, key: seq<byte>, delim: byte)
    requires ValidList(pairs, tail, delim) && EQ !in key
    ensures Scan(Print(pairs, tail), key, delim) == FirstValue(pairs, key)
  {
    if pairs == [] {
      SkipFillPrefix(tail, [], delim);
      assert tail + [] == tail;
    } else {
      var p, rest := pairs[0], Print(pairs[1..], tail);
      ListTail(pairs, tail, delim);
      ScanItem(p, rest, key, delim);
      ScanPrinted(pairs[1..], tail, key, delim);
    }
  }

  /** One step of the scan: an item with the key answers, any other item is passed over. */
  lemma ScanItem(p: Pair, rest: seq<byte>, key: seq<byte>, delim: byte)
    requires ValidPair(p, delim) && delim != EQ && EQ !in key && (rest == [] || rest[0] == delim)
    ensures Scan(p.fill + (Item(p) + rest), key, delim) ==
            if p.key == key then Some(p.value) else Scan(rest, key, delim)
  {
    hide SkipFill, UntilDelim, AtKey;
    var t := Item(p) + rest;
    assert !IsFill(t[0], delim) by { assert t[0] == if p.key == [] then EQ else p.key[0]; }
    SkipFillPrefix(p.fill, t, delim);
    NothingToSkip(t, delim);
    AtKeyIsKey(p, rest, key);
    if p.key == key {
      assert t[|key| + 1..] == p.value + rest;
      UntilDelimPrefix(p.value, rest, delim);
    } else {
      UntilDelimPrefix(Item(p), rest, delim);
      assert t[|Item(p)|..] == rest;
      if |t| <= |key| {
        ShortTextHasNoKey(rest, key, delim);
      }
    }
  }

  lemma {:induction false} ShortTextHasNoKey(s: seq<byte>, key: seq<byte>, delim: byte)
    requires |s| <= |key|
    ensures Scan(s, key, delim) == None
  {
  }

  // Lookup keys that hold an equals sign

  /** Filler and items, each item with an equals sign: what a printed list looks like. */
  predicate Itemised(s: seq<byte>, delim: byte)
    decreases |s|
  {
    var t := SkipFill(s, delim);
    t == [] || (var u := UntilDelim(t, delim); EQ in u && Itemised(t[|u|..], delim))
  }

  /**
   The scan takes the key for the start of an item: no printed pair has such a key, yet a printed list may hold it.
   */
  predicate Mistaken(key: seq<byte>, delim: byte) {
    EQ in key && !IsFill(key[0], delim) && Itemised(key + [EQ], delim)
  }

  /** A lookup returns the value of the first pair with the key, in every printed list. */
  ghost predicate LookupLaw(key: seq<byte>, delim: byte) {
    forall pairs, tail | ValidList(pairs, tail, delim) :: Scan(Print(pairs, tail), key, delim) == FirstValue(pairs, key)
  }

  /** An item in front of an itemised text. */
  lemma ItemisedCons(fill: seq<byte>, u: seq<byte>, rest: seq<byte>, delim: byte)
    requires (forall b | b in fill :: IsFill(b, delim)) && u != [] && !IsFill(u[0], delim) && delim !in u
    requires rest == [] || rest[0] == delim
    ensures Itemised(fill + (u + rest), delim) <==> EQ in u && Itemised(rest, delim)
  {
    hide SkipFill, UntilDelim;
    var t := u + rest;
    SkipFillPrefix(fill, t, delim);
    NothingToSkip(t, delim);
    UntilDelimPrefix(u, rest, delim);
    assert t[|u|..] == rest;
  }

  lemma {:induction false} FillItemised(fill: seq<byte>, delim: byte)
    requires forall b | b in fill :: IsFill(b, delim)
    ensures Itemised(fill, delim)
  {
    SkipFillPrefix(fill, [], delim);
    assert fill + [] == fill;
  }

  lemma {:induction false} PrintedItemised(pairs: seq<Pair>, tail: seq<byte>, delim: byte)
    requires ValidList(pairs, tail, delim)
    ensures Itemised(Print(pairs, tail), delim)
  {
    hide Itemised;
    if pairs == [] {
      FillItemised(tail, delim);
    } else {
      var p := pairs[0];
      assert p in pairs && ValidPair(p, delim);
      ListTail(pairs, tail, delim);
      PrintedItemised(pairs[1..], tail, delim);
      assert Item(p)[0] == if p.key == [] then EQ else p.key[0];
      assert Item(p)[|p.key|] == EQ;
      ItemisedCons(p.fill, Item(p), Print(pairs[1..], tail), delim);
    }
  }

  /** The first filler byte, taken off. */
  lemma ItemisedFill(s: seq<byte>, delim: byte)
    requires s != [] && IsFill(s[0], delim)
    ensures Itemised(s, delim) <==> Itemised(s[1..], delim)
  {
  }

  /** A text without filler in front: its first item and the rest. */
  lemma ItemisedItem(s: seq<byte>, delim: byte)
    requires s != [] && !IsFill(s[0], delim)
    ensures var u := UntilDelim(s, delim); Itemised(s, delim) <==> EQ in u && Itemised(s[|u|..], delim)
  {
    NothingToSkip(s, delim);
  }

  /** Cutting an itemised text behind an equals sign leaves it itemised. */
  lemma {:induction false} CutItemised(z: seq<byte>, w: seq<byte>, delim: byte)
    requires Itemised(z, delim) && w + [EQ] <= z && delim != EQ
    ensures Itemised(w + [EQ], delim)
    decreases |z|
  {
    hide Itemised, UntilDelim;
    var y := w + [EQ];
    assert y[0] == z[0] && |z| >= |y|;
    if IsFill(z[0], delim) {
      assert y[|w|] == EQ && w != [];
      assert y[1..] == w[1..] + [EQ];
      ItemisedFill(z, delim);
      ItemisedFill(y, delim);
      CutItemised(z[1..], w[1..], delim);
    } else {
      var u := UntilDelim(z, delim);
      ItemisedItem(z, delim);
      assert z == u + z[|u|..];
      if |y| <= |u| {
        assert y == u[..|y|] && y[|w|] == EQ;
        FillItemised([], delim);
        ItemisedCons([], y, [], delim);
        assert [] + (y + []) == y;
      } else {
        var w' := w[|u|..];
        assert y == u + (w' + [EQ]) && (w' + [EQ])[0] == z[|u|];
        CutItemised(z[|u|..], w', delim);
        ItemisedCons([], u, w' + [EQ], delim);
        assert [] + (u + (w' + [EQ])) == y;
      }
    }
  }

  /** A scan that finds a key with an equals sign in an itemised text is mistaken. */
  lemma {:induction false} FoundIsMistaken(z: seq<byte>, key: seq<byte>, delim: byte)
    requires Itemised(z, delim) && EQ in key && delim != EQ && Scan(z, key, delim).Some?
    ensures Mistaken(key, delim)
    decreases |z|
  {
    hide UntilDelim, SkipFill;
    var t := SkipFill(z, delim);
    NothingToSkip(t, delim);
    if AtKey(t, key) {
      assert key + [EQ] == t[..|key| + 1] && key[0] == t[..|key|][0];
      CutItemised(t, key, delim);
    } else {
      FoundIsMistaken(t[|UntilDelim(t, delim)|..], key, delim);
    }
  }

  /** Every itemised text is a printed list; filler in front of it goes to the first pair. */
  lemma {:induction false} ReadList(s: seq<byte>, delim: byte) returns (pairs: seq<Pair>, tail: seq<byte>)
    requires Itemised(s, delim) && delim != EQ
    ensures ValidList(pairs, tail, delim) && Print(pairs, tail) == s
    ensures s != [] && IsFill(s[0], delim) && pairs != [] ==> pairs[0].fill != [] && pairs[0].fill[0] == s[0]
    decreases |s|
  {
    hide SkipFill, UntilDelim, Itemised;
    var fill, t := SplitFill(s, delim);
    if t == [] {
      pairs, tail := [], s;
      assert fill == s;
    } else {
      var u := UntilDelim(t, delim);
      assert Itemised(t, delim) by {
        ItemisedAfter(fill, t, delim);
      }
      ItemisedItem(t, delim);
      var rest, more := ReadList(t[|u|..], delim);
      var pair := SplitItem(fill, u, delim);
      pairs, tail := [pair] + rest, more;
      ListCons(pair, rest, more, t[|u|..], delim);
      assert t == u + t[|u|..];
    }
  }

  lemma {:induction false} SplitFill(s: seq<byte>, delim: byte) returns (fill: seq<byte>, t: seq<byte>)
    ensures s == fill + t && t == SkipFill(s, delim) && forall b | b in fill :: IsFill(b, delim)
  {
    if s == [] || !IsFill(s[0], delim) {
      fill, t := [], s;
    } else {
      fill, t := SplitFill(s[1..], delim);
      fill := [s[0]] + fill;
    }
  }

  lemma ItemisedAfter(fill: seq<byte>, t: seq<byte>, delim: byte)
    requires (forall b | b in fill :: IsFill(b, delim)) && Itemised(fill + t, delim)
    ensures Itemised(t, delim)
  {
    SkipFillPrefix(fill, t, delim);
  }

  /** An item is a pair: the key is what comes before the first equals sign. */
  lemma SplitItem(fill: seq<byte>, u: seq<byte>, delim: byte) returns (p: Pair)
    requires (forall b | b in fill :: IsFill(b, delim)) && EQ in u && delim !in u && !IsFill(u[0], delim) && delim != EQ
    ensures ValidPair(p, delim) && p.fill == fill && Item(p) == u
  {
    var key := UntilDelim(u, EQ);
    assert |key| < |u| && u == key + [EQ] + u[|key| + 1..];
    p := Pair(fill, key, u[|key| + 1..]);
  }

  lemma ListCons(p: Pair, rest: seq<Pair>, tail: seq<byte>, s: seq<byte>, delim: byte)
    requires ValidPair(p, delim) && ValidList(rest, tail, delim) && Print(rest, tail) == s && (s == [] || s[0] == delim)
    requires s != [] && IsFill(s[0], delim) && rest != [] ==> rest[0].fill != [] && rest[0].fill[0] == s[0]
    ensures ValidList([p] + rest, tail, delim) && Print([p] + rest, tail) == p.fill + (Item(p) + s)
  {
    var pairs := [p] + rest;
    assert pairs[1..] == rest;
    if rest != [] {
      assert |Print(rest, tail)| > 0;
    }
    assert forall i | 1 <= i < |pairs| :: pairs[i] == rest[i - 1];
  }

  lemma {:induction false} NoPairHas(pairs: seq<Pair>, key: seq<byte>, delim: byte)
    requires (forall p | p in pairs :: ValidPair(p, delim)) && EQ in key
    ensures FirstValue(pairs, key) == None
  {
    if pairs != [] {
      assert pairs[0] in pairs;
      NoPairHas(pairs[1..], key, delim);
    }
  }

  /** A mistaken key is found in the list it is itself the text of. */
  lemma MistakenIsFound(key: seq<byte>, delim: byte)
    requires Mistaken(key, delim)
    ensures !LookupLaw(key, delim)
  {
    hide Itemised;
    var text := key + [EQ];
    assert text[0] == key[0];
    assert delim != EQ by {
      ItemisedItem(text, delim);
    }
    var pairs, tail := ReadList(text, delim);
    NoPairHas(pairs, key, delim);
    assert SkipFill(text, delim) == text;
    assert AtKey(text, key);
    assert Scan(Print(pairs, tail), key, delim).Some?;
  }

  /**
   The exact condition: a lookup key is served correctly in every printed list if and only if it is not mistaken for the
   start of an item, which takes an equals sign in it.
   */
  lemma LookupExactlyWhen(key: seq<byte>, delim: byte)
    ensures LookupLaw(key, delim) <==> !Mistaken(key, delim)
  {
    hide Itemised, Scan, Print, FirstValue, ValidList;
    if Mistaken(key, delim) {
      MistakenIsFound(key, delim);
    } else {
      forall pairs, tail | ValidList(pairs, tail, delim)
        ensures Scan(Print(pairs, tail), key, delim) == FirstValue(pairs, key)
      {
        LookupServed(pairs, tail, key, delim);
      }
    }
  }

  lemma LookupServed(pairs: seq<Pair>, tail: seq<byte>, key: seq<byte>, delim: byte)
    requires ValidList(pairs, tail, delim) && !Mistaken(key, delim)
    ensures Scan(Print(pairs, tail), key, delim) == FirstValue(pairs, key)
  {
    hide Itemised, Scan, Mistaken;
    if EQ !in key {
      ScanPrinted(pairs, tail, key, delim);
    } else {
      NoPairHas(pairs, key, delim);
      PrintedItemised(pairs, tail, delim);
      if Scan(Print(pairs, tail), key, delim).Some? {
        FoundIsMistaken(Print(pairs, tail), key, delim);
      }
    }
  }

  /** One such key: `a=b&c`, which the list `a=b&c=` seems to hold. */
  lemma DelimitedKeyFails()
    ensures !LookupLaw([0x61, EQ, 0x62, 0x26, 0x63], 0x26)
  {
    var key: seq<byte> := [0x61, EQ, 0x62, 0x26, 0x63];
    var rest: seq<byte> := [0x63, EQ];
    FillItemised([], 0x26);
    assert [] + (rest + []) == rest;
    ItemisedCons([], rest, [], 0x26);
    assert Itemised([0x26] + rest, 0x26) by {
      ItemisedFill([0x26] + rest, 0x26);
      assert ([0x26] + rest)[1..] == rest;
    }
    ItemisedCons([], [0x61, EQ, 0x62], [0x26] + rest, 0x26);
    assert key + [EQ] == [] + ([0x61, EQ, 0x62] + ([0x26] + rest));
    MistakenIsFound(key, 0x26);
  }
}
