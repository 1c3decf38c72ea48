/**
 The symbol table of the relocation section: core/iwasm/aot/aot_loader.c. Names are length-prefixed strings, each padded
 to a 2-byte boundary; a table of offsets points at them. The string area starts 4-byte aligned.
 */
module Symbols {
  import opened Bytes
  import AotFile

  function Align2(p: nat): (q: nat)
    ensures p <= q <= p + 1 && q % 2 == 0
  {
    (p + 1) / 2 * 2
  }

  /** A name entry: its string and the padding behind it, whose value does not matter. */
  datatype Entry = Entry(name: seq<byte>, pad: seq<byte>)

  predicate ValidEntry(e: Entry) {
    |e.name| < 0x1_0000 && |e.pad| == |e.name| % 2
  }

  function EntryImage(e: Entry): (s: seq<byte>)
    requires ValidEntry(e)
    ensures |s| == Align2(2 + |e.name|)
  {
    LE16(|e.name|) + e.name + e.pad
  }

  predicate AllValid(es: seq<Entry>) {
    forall i | 0 <= i < |es| :: ValidEntry(es[i])
  }

  /** The string area the entries make up. */
  function Area(es: seq<Entry>): seq<byte>
    requires AllValid(es)
  {
    if es == [] then [] else EntryImage(es[0]) + Area(es[1..])
  }

  /** Where entry `k` starts. */
  function EntryOffset(es: seq<Entry>, k: nat): nat
    requires AllValid(es) && k <= |es|
  {
    if k == 0 then 0 else |EntryImage(es[0])| + EntryOffset(es[1..], k - 1)
  }

  /** `validate_symbol_table` from string `i` on, with the cursor at `p`. */
  predicate AcceptedFrom(area: seq<byte>, offsets: seq<uint32>, i: nat, p: nat, addr: uint32)
    requires i <= |offsets|
    decreases |offsets| - i
  {
    if i == |offsets| then p == |area|
    else
      && offsets[i] == addr && Align2(p) + 2 <= |area|
      && var len := FromLE16(area[Align2(p)..Align2(p) + 2]);
         AcceptedFrom(area, offsets, i + 1, Align2(Align2(p) + 2 + len),
                      Align2((addr + 2 + len) % 0x1_0000_0000) % 0x1_0000_0000)
  }

  predicate Accepted(area: seq<byte>, offsets: seq<uint32>) {
    AcceptedFrom(area, offsets, 0, 0, 0)
  }

  /** `PastEnd`: a length behind the end of the section is looked at, and C says nothing about the outcome. */
  datatype Verdict = Accepts | Rejects | PastEnd

  /**
   The same, on the rest of the section. The announced length of the string area is not checked against it before the
   table is validated.
   */
  function VerdictFrom(rest: seq<byte>, total: uint32, offsets: seq<uint32>, i: nat, p: nat, addr: uint32): Verdict
    requires i <= |offsets|
    decreases |offsets| - i
  {
    if i == |offsets| then if p == total then Accepts else Rejects
    else if offsets[i] != addr || Align2(p) + 2 > total then Rejects
    else if Align2(p) + 2 > |rest| then PastEnd
    else
      var len := FromLE16(rest[Align2(p)..Align2(p) + 2]);
      VerdictFrom(rest, total, offsets, i + 1, Align2(Align2(p) + 2 + len),
                  Align2((addr + 2 + len) % 0x1_0000_0000) % 0x1_0000_0000)
  }

  method ValidateSymbolTable(rest: seq<byte>, total: uint32, offsets: seq<uint32>) returns (v: Verdict)
    ensures v == VerdictFrom(rest, total, offsets, 0, 0, 0)
  {
    hide FromLE16;
    var p, addr := 0, 0;
    for i := 0 to |offsets|
      invariant 0 <= p && 0 <= addr < 0x1_0000_0000
      invariant VerdictFrom(rest, total, offsets, i, p, addr) == VerdictFrom(rest, total, offsets, 0, 0, 0)
    {
      if offsets[i] != addr {
        return Rejects;
      }
      p := Align2(p);
      if p + 2 > total {
        return Rejects;
      }
      if p + 2 > |rest| {
        return PastEnd;
      }
      var len: int := FromLE16(rest[p..p + 2]);
      p := p + 2;
      addr := (addr + 2 + len) % 0x1_0000_0000;
      addr := Align2(addr) % 0x1_0000_0000;
      p := Align2(p + len);
    }
    v := if p == total then Accepts else Rejects;
  }

  /** A verdict does not depend on what lies behind the section, and is open only if the area reaches behind it. */
  lemma {:induction false} VerdictStands(rest: seq<byte>, more: seq<byte>, total: uint32, offsets: seq<uint32>, i: nat,
                                         p: nat, addr: uint32)
    requires i <= |offsets| && total <= |rest| + |more|
    ensures var v := VerdictFrom(rest, total, offsets, i, p, addr);
            && (v == PastEnd ==> total > |rest|)
            && (v != PastEnd ==> (v == Accepts <==> AcceptedFrom((rest + more)[..total], offsets, i, p, addr)))
    decreases |offsets| - i
  {
    hide FromLE16, Align2;
    if i < |offsets| {
      var q := Align2(p);
      if q + 2 <= total && q + 2 <= |rest| {
        assert (rest + more)[..total][q..q + 2] == rest[q..q + 2];
        var len := FromLE16(rest[q..q + 2]);
        VerdictStands(rest, more, total, offsets, i + 1, Align2(q + 2 + len),
                      Align2((addr + 2 + len) % 0x1_0000_0000) % 0x1_0000_0000);
      }
    }
  }

  /** The area from `p` on and the offsets from `i` on are exactly the given entries. */
  ghost predicate Tiles(area: seq<byte>, offsets: seq<uint32>, i: nat, p: nat, es: seq<Entry>)
    requires i <= |offsets| && p <= |area|
  {
    && AllValid(es) && |es| == |offsets| - i && area[p..] == Area(es)
    && forall k | 0 <= k < |es| :: offsets[i + k] == p + EntryOffset(es, k)
  }

  lemma AlignEven(p: nat)
    requires p % 2 == 0
    ensures Align2(p) == p
  {
  }

  /** The cursor of an accepted table never passes the end of the area. */
  lemma {:induction false} NoOvershoot(area: seq<byte>, offsets: seq<uint32>, i: nat, p: nat, addr: uint32)
    requires i <= |offsets| && AcceptedFrom(area, offsets, i, p, addr)
    ensures p <= |area|
  {
    hide FromLE16;
  }

  /** The 32-bit running offset never wraps as long as the cursor stays inside the area, so it is the cursor. */
  lemma AddressIsCursor(p: nat, len: nat)
    requires p % 2 == 0 && Align2(p + 2 + len) < 0x1_0000_0000
    ensures Align2((p + 2 + len) % 0x1_0000_0000) % 0x1_0000_0000 == Align2(p + 2 + len)
  {
    hide Align2;
    var n := p + 2 + len;
    assert n <= Align2(n);
    assert n % 0x1_0000_0000 == n;
  }

  /** One round of the loop, with the two cursors identified. */
  lemma {:induction false} OneRound(area: seq<byte>, offsets: seq<uint32>, i: nat, p: nat)
    requires |area| < 0x1_0000_0000 && i < |offsets| && p <= |area| && p % 2 == 0
    ensures AcceptedFrom(area, offsets, i, p, p) <==>
              && offsets[i] == p && p + 2 <= |area|
              && var q := Align2(p + 2 + FromLE16(area[p..p + 2]));
                 q <= |area| && AcceptedFrom(area, offsets, i + 1, q, q)
  {
    hide FromLE16, Align2;
    AlignEven(p);
    if offsets[i] == p && p + 2 <= |area| {
      var len: int := FromLE16(area[p..p + 2]);
      var addr := Align2((p + 2 + len) % 0x1_0000_0000) % 0x1_0000_0000;
      if AcceptedFrom(area, offsets, i + 1, Align2(p + 2 + len), addr) {
        NoOvershoot(area, offsets, i + 1, Align2(p + 2 + len), addr);
      }
      if Align2(p + 2 + len) <= |area| {
        AddressIsCursor(p, len);
      }
    }
  }

  /** Acceptance means the rest of the area is a list of entries and every stored offset points at its own. */
  lemma {:induction false} AcceptedTiles(area: seq<byte>, offsets: seq<uint32>, i: nat, p: nat) returns (es: seq<Entry>)
    requires |area| < 0x1_0000_0000 && i <= |offsets| && p <= |area| && p % 2 == 0
    requires AcceptedFrom(area, offsets, i, p, p)
    ensures Tiles(area, offsets, i, p, es)
    decreases |offsets| - i
  {
    hide FromLE16, LE16, Align2, Tiles, EntryImage;
    if i == |offsets| {
      es := [];
      NothingTiles(area, offsets, p);
    } else {
      OneRound(area, offsets, i, p);
      var q := Align2(p + 2 + FromLE16(area[p..p + 2]));
      var rest := AcceptedTiles(area, offsets, i + 1, q);
      var e := EntryThere(area, p);
      es := [e] + rest;
      TilesCons(area, offsets, i, p, e, rest);
    }
  }

  lemma NothingTiles(area: seq<byte>, offsets: seq<uint32>, p: nat)
    requires p == |area|
    ensures Tiles(area, offsets, |offsets|, p, [])
  {
  }

  lemma EntryThere(area: seq<byte>, p: nat) returns (e: Entry)
    requires p % 2 == 0 && p + 2 <= |area| && Align2(p + 2 + FromLE16(area[p..p + 2])) <= |area|
    ensures ValidEntry(e) && p + |EntryImage(e)| == Align2(p + 2 + FromLE16(area[p..p + 2]))
    ensures area[p..p + |EntryImage(e)|] == EntryImage(e)
  {
    hide FromLE16, LE16;
    var len: int := FromLE16(area[p..p + 2]);
    var q := Align2(p + 2 + len);
    e := Entry(area[p + 2..p + 2 + len], area[p + 2 + len..q]);
    Image16(0, area[p..p + 2]);
    var s := area[p..q];
    assert s[..2] == area[p..p + 2];
    assert s == s[..2] + e.name + e.pad;
  }

  lemma TilesCons(area: seq<byte>, offsets: seq<uint32>, i: nat, p: nat, e: Entry, rest: seq<Entry>)
    requires i < |offsets| && ValidEntry(e) && p + |EntryImage(e)| <= |area| && offsets[i] == p
    requires area[p..p + |EntryImage(e)|] == EntryImage(e)
    requires Tiles(area, offsets, i + 1, p + |EntryImage(e)|, rest)
    ensures Tiles(area, offsets, i, p, [e] + rest)
  {
    hide EntryImage, ValidEntry;
    var es, q := [e] + rest, p + |EntryImage(e)|;
    assert es[1..] == rest;
    assert area[p..] == area[p..q] + area[q..];
    forall k | 0 <= k < |es| ensures offsets[i + k] == p + EntryOffset(es, k) {
      if k > 0 {
        assert offsets[i + 1 + (k - 1)] == q + EntryOffset(rest, k - 1);
      }
    }
  }

  /** The other direction: an area of entries with their offsets is accepted. */
  lemma {:induction false} TilesAccepted(area: seq<byte>, offsets: seq<uint32>, i: nat, p: nat, es: seq<Entry>)
    requires |area| < 0x1_0000_0000 && i <= |offsets| && p <= |area| && p % 2 == 0
    requires Tiles(area, offsets, i, p, es)
    ensures AcceptedFrom(area, offsets, i, p, p)
    decreases |es|
  {
    hide FromLE16, LE16, Align2, EntryImage;
    if es != [] {
      var q := p + |EntryImage(es[0])|;
      FirstEntry(area, p, es);
      RestTiles(area, offsets, i, p, es);
      assert offsets[i + 0] == p + EntryOffset(es, 0);
      AlignEvenSum(p, 2 + |es[0].name|);
      TilesAccepted(area, offsets, i + 1, q, es[1..]);
      OneRound(area, offsets, i, p);
    }
  }

  lemma AlignEvenSum(p: nat, n: nat)
    requires p % 2 == 0
    ensures Align2(p + n) == p + Align2(n) && (p + Align2(n)) % 2 == 0
  {
  }

  /** Dropping the first entry leaves a tiling of what follows it. */
  lemma RestTiles(area: seq<byte>, offsets: seq<uint32>, i: nat, p: nat, es: seq<Entry>)
    requires i <= |offsets| && p <= |area| && Tiles(area, offsets, i, p, es) && es != []
    ensures var q := p + |EntryImage(es[0])|; q <= |area| && Tiles(area, offsets, i + 1, q, es[1..])
  {
    hide FromLE16, LE16, EntryImage;
    FirstEntry(area, p, es);
    var q, rest := p + |EntryImage(es[0])|, es[1..];
    forall k | 0 <= k < |rest| ensures offsets[i + 1 + k] == q + EntryOffset(rest, k) {
      assert offsets[i + (k + 1)] == p + EntryOffset(es, k + 1);
    }
  }

  lemma FirstEntry(area: seq<byte>, p: nat, es: seq<Entry>)
    requires p <= |area| && AllValid(es) && es != [] && area[p..] == Area(es)
    ensures var e, q := es[0], p + |EntryImage(es[0])|;
            && q <= |area| && area[q..] == Area(es[1..]) && q == Align2(2 + |e.name|) + p
            && FromLE16(area[p..p + 2]) == |e.name|
            && area[p + 2..p + 2 + |e.name|] == e.name
  {
    hide LE16, FromLE16, Area;
    var e := es[0];
    AreaCons(es);
    EntrySlices(area, p, LE16(|e.name|), e.name, e.pad, Area(es[1..]));
    Image16(|e.name|, [0, 0]);
  }

  lemma AreaCons(es: seq<Entry>)
    requires AllValid(es) && es != []
    ensures Area(es) == LE16(|es[0].name|) + es[0].name + es[0].pad + Area(es[1..])
  {
    hide LE16;
  }

  lemma EntrySlices(area: seq<byte>, p: nat, k: seq<byte>, name: seq<byte>, pad: seq<byte>, rest: seq<byte>)
    requires p <= |area| && area[p..] == k + name + pad + rest && |k| == 2
    ensures var n := |k + name + pad|;
            && p + n <= |area| && area[p + n..] == rest
            && area[p..p + 2] == k && area[p + 2..p + 2 + |name|] == name
  {
    var s, n := k + name + pad + rest, |area| - p;
    assert s[0..2] == k && s[2..2 + |name|] == name && s[|k + name + pad|..n] == rest;
    SliceOfSlice(area, p, n, 0, 2);
    SliceOfSlice(area, p, n, 2, 2 + |name|);
    SliceOfSlice(area, p, n, |k + name + pad|, n);
    assert area[p..p + n] == s;
  }

  /**
   A symbol table is accepted exactly when the string area is a list of padded length-prefixed names, tiled completely,
   and offset `k` is where name `k` starts.
   */
  lemma AcceptedExactlyWhen(area: seq<byte>, offsets: seq<uint32>)
    requires |area| < 0x1_0000_0000
    ensures Accepted(area, offsets) <==> exists es :: Tiles(area, offsets, 0, 0, es)
  {
    hide AcceptedFrom, Tiles;
    if Accepted(area, offsets) {
      var es := AcceptedTiles(area, offsets, 0, 0);
    }
    if exists es :: Tiles(area, offsets, 0, 0, es) {
      var es :| Tiles(area, offsets, 0, 0, es);
      TilesAccepted(area, offsets, 0, 0, es);
    }
  }

  /** A lookup by offset: the length there, then as many bytes. */
  function NameAt(area: seq<byte>, offset: nat): (r: seq<byte>)
    requires offset + 2 <= |area| && offset + 2 + FromLE16(area[offset..offset + 2]) <= |area|
  {
    area[offset + 2..offset + 2 + FromLE16(area[offset..offset + 2])]
  }

  /** Where the area is tiled, a lookup through offset `k` stays inside it and reads name `k`. */
  lemma {:induction false} LookupReadsName(area: seq<byte>, offsets: seq<uint32>, i: nat, p: nat, es: seq<Entry>,
                                           k: nat)
    requires i <= |offsets| && p <= |area| && Tiles(area, offsets, i, p, es) && k < |es|
    ensures var o := offsets[i + k];
            && o + 2 <= |area| && o + 2 + FromLE16(area[o..o + 2]) <= |area|
            && NameAt(area, o) == es[k].name
    decreases k
  {
    hide FromLE16, LE16;
    FirstEntry(area, p, es);
    if k == 0 {
      assert offsets[i + 0] == p + EntryOffset(es, 0);
    } else {
      RestTiles(area, offsets, i, p, es);
      LookupReadsName(area, offsets, i + 1, p + |EntryImage(es[0])|, es[1..], k - 1);
    }
  }

  /** The lookup at an offset stays inside the area and gives the name. */
  predicate Reads(area: seq<byte>, offset: nat, name: seq<byte>) {
    && offset + 2 <= |area| && offset + 2 + FromLE16(area[offset..offset + 2]) <= |area|
    && NameAt(area, offset) == name
  }

  /** Every lookup through a stored offset reads its own name. */
  predicate AllRead(area: seq<byte>, offsets: seq<uint32>, es: seq<Entry>) {
    |es| == |offsets| && forall k | 0 <= k < |offsets| :: Reads(area, offsets[k], es[k].name)
  }

  /** In an accepted table every lookup through a stored offset stays inside the area and reads its own name. */
  lemma AcceptedReadsNames(area: seq<byte>, offsets: seq<uint32>) returns (es: seq<Entry>)
    requires |area| < 0x1_0000_0000 && Accepted(area, offsets)
    ensures Tiles(area, offsets, 0, 0, es) && AllRead(area, offsets, es)
  {
    hide AcceptedFrom, FromLE16;
    es := AcceptedTiles(area, offsets, 0, 0);
    forall k | 0 <= k < |offsets| ensures Reads(area, offsets[k], es[k].name) {
      LookupReadsName(area, offsets, 0, 0, es, k);
    }
  }

  /** The loader goes on to the group count only when that is inside the section. */
  predicate Loaded(rest: seq<byte>, total: uint32, offsets: seq<uint32>) {
    VerdictFrom(rest, total, offsets, 0, 0, 0) == Accepts && AotFile.Align4(total) + 4 <= |rest|
  }

  /**
   A table is loaded exactly when its area and the group count are inside the section and the area is tiled by the names
   at the stored offsets. So whatever length the section announces, later lookups stay inside it and read their names.
   */
  lemma LoadedExactlyWhen(rest: seq<byte>, total: uint32, offsets: seq<uint32>)
    ensures Loaded(rest, total, offsets) <==>
            AotFile.Align4(total) + 4 <= |rest| && exists es :: Tiles(rest[..total], offsets, 0, 0, es)
    ensures Loaded(rest, total, offsets) ==>
              exists es :: Tiles(rest[..total], offsets, 0, 0, es) && AllRead(rest[..total], offsets, es)
  {
    hide VerdictFrom, AcceptedFrom, Tiles, AllRead;
    if total <= |rest| {
      VerdictStands(rest, [], total, offsets, 0, 0, 0);
      assert rest + [] == rest;
      AcceptedExactlyWhen(rest[..total], offsets);
      if Accepted(rest[..total], offsets) {
        var es := AcceptedReadsNames(rest[..total], offsets);
      }
    }
  }
}
