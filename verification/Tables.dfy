/**
 Table records: core/iwasm/aot/aot_runtime.c. All tables of an instance lie one behind the other in one region; a record
 is its current size, its slot count and its slots, and is found by walking. Units are 32-bit words: a record header
 is two words, a slot one.
 */
module Tables {
  import opened Bytes

  /** A table type: `possible_grow` decides how many slots are reserved. */
  datatype Decl = Decl(init: uint32, max: uint32, growable: bool)

  /** The initial size is within the slots reserved. The loader takes both sizes from the file as they are. */
  predicate InitFits(d: Decl) {
    d.growable ==> d.init <= d.max
  }

  /** `aot_get_tbl_data_slots`. */
  function Slots(d: Decl): uint32 {
    if d.growable then d.max else d.init
  }

  /** A table: its current size and all its slots. */
  datatype Table = Table(cur: nat, slots: seq<uint32>)

  const UNINITIALIZED: uint32 := 0xFFFF_FFFF

  /** Offset of record `i`. */
  function Offset(ts: seq<Table>, i: nat): nat
    requires i <= |ts|
  {
    if i == 0 then 0 else Offset(ts, i - 1) + 2 + |ts[i - 1].slots|
  }

  predicate RecordAt(w: seq<uint32>, p: nat, t: Table) {
    && p + 2 + |t.slots| <= |w| && w[p] == t.cur && w[p + 1] == |t.slots|
    && w[p + 2..p + 2 + |t.slots|] == t.slots
  }

  /** The region is exactly these tables, one behind the other. */
  predicate Holds(w: seq<uint32>, ts: seq<Table>) {
    |w| == Offset(ts, |ts|) && forall i | 0 <= i < |ts| :: RecordAt(w, Offset(ts, i), ts[i])
  }

  /** No current size exceeds its maximum. */
  predicate Within(ts: seq<Table>) {
    forall i | 0 <= i < |ts| :: ts[i].cur <= |ts[i].slots|
  }

  lemma {:induction false} OffsetsOrdered(ts: seq<Table>, i: nat, j: nat)
    requires i < j <= |ts|
    ensures Offset(ts, i) + 2 + |ts[i].slots| <= Offset(ts, j)
    decreases j
  {
    if i < j - 1 {
      OffsetsOrdered(ts, i, j - 1);
    }
  }

  /** Offsets depend on slot counts only. */
  lemma {:induction false} SameOffsets(ts: seq<Table>, us: seq<Table>, i: nat)
    requires |ts| == |us| && i <= |ts| && forall j | 0 <= j < |ts| :: |ts[j].slots| == |us[j].slots|
    ensures Offset(ts, i) == Offset(us, i)
  {
    if i > 0 {
      SameOffsets(ts, us, i - 1);
    }
  }

  lemma RecordOf(w: seq<uint32>, ts: seq<Table>, i: nat)
    requires Holds(w, ts) && i < |ts|
    ensures RecordAt(w, Offset(ts, i), ts[i])
  {
    hide RecordAt;
  }

  lemma HoldsLength(w: seq<uint32>, ts: seq<Table>)
    requires Holds(w, ts)
    ensures |w| == Offset(ts, |ts|)
  {
  }

  lemma SlotsAt(w: seq<uint32>, p: nat, t: Table)
    requires RecordAt(w, p, t)
    ensures forall x | 0 <= x < |t.slots| :: w[p + 2 + x] == t.slots[x]
  {
    forall x | 0 <= x < |t.slots| ensures w[p + 2 + x] == t.slots[x] {
      assert w[p + 2..p + 2 + |t.slots|][x] == w[p + 2 + x];
    }
  }

  /** A record outside the written range is kept. */
  lemma KeptRecord(w: seq<uint32>, v: seq<uint32>, p: nat, t: Table, lo: nat, hi: nat)
    requires RecordAt(w, p, t) && |v| == |w| && (p + 2 + |t.slots| <= lo || hi <= p)
    requires forall i | 0 <= i < |w| && !(lo <= i < hi) :: v[i] == w[i]
    ensures RecordAt(v, p, t)
  {
    assert v[p + 2..p + 2 + |t.slots|] == w[p + 2..p + 2 + |t.slots|];
  }

  /** A write inside record `k` leaves every other record as it was. */
  lemma ReplacedRecord(w: seq<uint32>, v: seq<uint32>, ts: seq<Table>, k: nat, t: Table)
    requires Holds(w, ts) && k < |ts| && |t.slots| == |ts[k].slots| && |v| == |w|
    requires RecordAt(v, Offset(ts, k), t)
    requires forall i | 0 <= i < |w| && !(Offset(ts, k) <= i < Offset(ts, k) + 2 + |t.slots|) :: v[i] == w[i]
    ensures Holds(v, ts[k := t])
  {
    hide RecordAt;
    var us := ts[k := t];
    SameOffsets(ts, us, |ts|);
    forall i | 0 <= i < |us|
      ensures RecordAt(v, Offset(us, i), us[i])
    {
      SameOffsets(ts, us, i);
      if i != k {
        OffsetsOrdered(ts, if i < k then i else k, if i < k then k else i);
        KeptRecord(w, v, Offset(ts, i), ts[i], Offset(ts, k), Offset(ts, k) + 2 + |t.slots|);
      }
    }
  }

  function Fresh(d: Decl): Table {
    Table(d.init, seq(Slots(d), _ => UNINITIALIZED))
  }

  function AllFresh(ds: seq<Decl>): (ts: seq<Table>)
    ensures |ts| == |ds| && forall i | 0 <= i < |ds| :: ts[i] == Fresh(ds[i])
  {
    seq(|ds|, i requires 0 <= i < |ds| => Fresh(ds[i]))
  }

  /**
   After initialisation no current size exceeds its maximum, exactly when no growable table starts above its maximum.
   */
  lemma FreshWithin(ds: seq<Decl>)
    ensures Within(AllFresh(ds)) <==> forall i | 0 <= i < |ds| :: InitFits(ds[i])
  {
    var ts := AllFresh(ds);
    assert forall i | 0 <= i < |ds| :: ts[i] == Fresh(ds[i]);
    assert forall i | 0 <= i < |ds| :: ts[i].cur <= |ts[i].slots| <==> InitFits(ds[i]);
  }

  /** A declaration as it may stand in a file, for which the current size starts above the maximum. */
  lemma StartsAbove()
    ensures !Within(AllFresh([Decl(2, 1, true)]))
  {
    FreshWithin([Decl(2, 1, true)]);
    assert !InitFits([Decl(2, 1, true)][0]);
  }

  /** The table region of `aot_instantiate`, in words. */
  method RegionSize(ds: seq<Decl>) returns (size: nat)
    ensures size == Offset(AllFresh(ds), |ds|)
  {
    size := 0;
    ghost var ts := AllFresh(ds);
    for i := 0 to |ds|
      invariant size == Offset(ts, i)
    {
      size := size + 2 + Slots(ds[i]);
    }
  }

  /** An element segment that has been resolved: target table, offset and function indexes. */
  datatype Segment = Segment(active: bool, table: nat, offset: uint32, elems: seq<uint32>)

  /** `elems` written from `offset` on. */
  function Written(t: Table, offset: nat, elems: seq<uint32>): Table
    requires offset + |elems| <= |t.slots|
  {
    t.(slots := t.slots[..offset] + elems + t.slots[offset + |elems|..])
  }

  /** A segment names a table. Lengths are below 2^30: their array was allocated. */
  predicate SegmentOk(n: nat, s: Segment) {
    s.active ==> s.table < n && |s.elems| < 0x4000_0000
  }

  /** The two range tests, the second in 32-bit arithmetic. */
  predicate SegmentFits(ts: seq<Table>, s: Segment)
    requires s.table < |ts|
  {
    s.offset <= ts[s.table].cur && Wrap(s.offset + |s.elems|) <= ts[s.table].cur
  }

  /** `Spills`: the segment fits the current size but not the slots, and the bounded copy does not do what is asked. */
  datatype Filling = Filled | DoesNotFit | Spills

  /** Applying segments in order; the first one that does not fit stops the instantiation. */
  function Applied(ts: seq<Table>, ss: seq<Segment>): (r: (seq<Table>, Filling))
    requires forall i | 0 <= i < |ss| :: SegmentOk(|ts|, ss[i])
    ensures |r.0| == |ts|
    decreases ss
  {
    if ss == [] then (ts, Filled)
    else
      assert SegmentOk(|ts|, ss[0]);
      if !ss[0].active then Applied(ts, ss[1..])
      else if !SegmentFits(ts, ss[0]) then (ts, DoesNotFit)
      else if ss[0].offset + |ss[0].elems| > |ts[ss[0].table].slots| then (ts, Spills)
      else Applied(ts[ss[0].table := Written(ts[ss[0].table], ss[0].offset, ss[0].elems)], ss[1..])
  }

  // What segments leave behind, slot by slot

  /** The segment writes slot `x` of table `k`. */
  predicate Covers(s: Segment, k: nat, x: nat) {
    s.active && s.table == k && s.offset <= x < s.offset + |s.elems|
  }

  /** Of the first `n` segments, `j` is the last to write slot `x` of table `k`. */
  predicate LastCovers(ss: seq<Segment>, n: nat, j: nat, k: nat, x: nat)
    requires n <= |ss|
  {
    j < n && Covers(ss[j], k, x) && forall i | j < i < n :: !Covers(ss[i], k, x)
  }

  /** The value in slot `x` of table `k`: that of the last of the first `n` segments to write it, or the old one. */
  predicate SlotAfter(t: Table, ss: seq<Segment>, n: nat, k: nat, x: nat, value: uint32)
    requires n <= |ss| && x < |t.slots|
  {
    && (forall j | 0 <= j < n && LastCovers(ss, n, j, k, x) :: value == ss[j].elems[x - ss[j].offset])
    && ((forall j | 0 <= j < n :: !Covers(ss[j], k, x)) ==> value == t.slots[x])
  }

  /** The table after the first `n` segments. */
  predicate TableAfter(t: Table, ss: seq<Segment>, n: nat, k: nat, u: Table)
    requires n <= |ss|
  {
    u.cur == t.cur && |u.slots| == |t.slots| && forall x | 0 <= x < |t.slots| :: SlotAfter(t, ss, n, k, x, u.slots[x])
  }

  /** The segment passes both range tests of the source. */
  predicate Admitted(ts: seq<Table>, s: Segment) {
    s.table < |ts| && s.offset <= ts[s.table].cur && (s.offset + |s.elems|) % 0x1_0000_0000 <= ts[s.table].cur
  }

  predicate Roomy(ts: seq<Table>, s: Segment) {
    s.table < |ts| && s.offset + |s.elems| <= |ts[s.table].slots|
  }

  /** The first `n` segments have been applied, and the next one, if there is one, has stopped it. */
  predicate FilledUpTo(ts: seq<Table>, ss: seq<Segment>, n: nat, us: seq<Table>, filling: Filling) {
    && n <= |ss| && |us| == |ts| && (forall k | 0 <= k < |ts| :: TableAfter(ts[k], ss, n, k, us[k]))
    && (forall i | 0 <= i < n && ss[i].active :: Admitted(ts, ss[i]) && Roomy(ts, ss[i]))
    && (n == |ss| ==> filling == Filled)
    && (n < |ss| ==>
          && ss[n].active && (Admitted(ts, ss[n]) ==> !Roomy(ts, ss[n]))
          && filling == if Admitted(ts, ss[n]) then Spills else DoesNotFit)
  }

  /** After one segment, slot by slot. */
  lemma WrittenSlots(t: Table, s: Segment, k: nat, x: nat)
    requires s.active && s.table == k && s.offset + |s.elems| <= |t.slots| && x < |t.slots|
    ensures var u := Written(t, s.offset, s.elems);
            && u.cur == t.cur && |u.slots| == |t.slots|
            && u.slots[x] == if Covers(s, k, x) then s.elems[x - s.offset] else t.slots[x]
  {
  }

  lemma {:induction false} SlotAfterCons(t: Table, t': Table, ss: seq<Segment>, n: nat, k: nat, x: nat, value: uint32)
    requires ss != [] && n < |ss| && x < |t.slots| == |t'.slots|
    requires t'.slots[x] == if Covers(ss[0], k, x) then ss[0].elems[x - ss[0].offset] else t.slots[x]
    requires SlotAfter(t', ss[1..], n, k, x, value)
    ensures SlotAfter(t, ss, n + 1, k, x, value)
  {
    var rest := ss[1..];
    assert forall i | 0 <= i < n :: rest[i] == ss[i + 1];
    forall j | 0 <= j < n + 1 && LastCovers(ss, n + 1, j, k, x) ensures value == ss[j].elems[x - ss[j].offset] {
      if j > 0 {
        assert LastCovers(rest, n, j - 1, k, x);
      } else {
        assert forall i | 0 <= i < n :: !Covers(rest[i], k, x);
      }
    }
    if forall j | 0 <= j < n + 1 :: !Covers(ss[j], k, x) {
      assert forall i | 0 <= i < n :: !Covers(rest[i], k, x);
    }
  }

  lemma TableAfterCons(ts: seq<Table>, ss: seq<Segment>, n: nat, k: nat, u: Table)
    requires ss != [] && n < |ss| && k < |ts| && SegmentOk(|ts|, ss[0]) && (ss[0].active ==> Roomy(ts, ss[0]))
    requires TableAfter(After(ts, ss[0])[k], ss[1..], n, k, u)
    ensures TableAfter(ts[k], ss, n + 1, k, u)
  {
    hide Covers, SlotAfter, Written;
    var t, t' := ts[k], After(ts, ss[0])[k];
    assert |t'.slots| == |t.slots| && t'.cur == t.cur by { AfterSizes(ts, ss[0], k); }
    forall x | 0 <= x < |t.slots| ensures SlotAfter(t, ss, n + 1, k, x, u.slots[x]) {
      if ss[0].active && ss[0].table == k {
        WrittenSlots(t, ss[0], k, x);
      } else {
        NotCovered(ss[0], k, x);
      }
      SlotAfterCons(t, t', ss, n, k, x, u.slots[x]);
    }
  }

  lemma NotCovered(s: Segment, k: nat, x: nat)
    requires !(s.active && s.table == k)
    ensures !Covers(s, k, x)
  {
  }

  /** The tables after one segment that has room. */
  function After(ts: seq<Table>, s: Segment): (us: seq<Table>)
    requires s.active ==> Roomy(ts, s)
    ensures |us| == |ts|
  {
    if s.active then ts[s.table := Written(ts[s.table], s.offset, s.elems)] else ts
  }

  lemma AfterSizes(ts: seq<Table>, s: Segment, k: nat)
    requires k < |ts| && (s.active ==> Roomy(ts, s))
    ensures After(ts, s)[k].cur == ts[k].cur && |After(ts, s)[k].slots| == |ts[k].slots|
  {
  }

  /**
   What the segments leave behind: every slot holds the value of the last segment to write it, or its old one. When a
   segment stops the instantiation, this holds of the segments before it.
   */
  lemma {:induction false} AppliedMeaning(ts: seq<Table>, ss: seq<Segment>) returns (n: nat)
    requires forall i | 0 <= i < |ss| :: SegmentOk(|ts|, ss[i])
    ensures FilledUpTo(ts, ss, n, Applied(ts, ss).0, Applied(ts, ss).1)
    decreases ss
  {
    hide TableAfter, Written;
    if ss == [] || (ss[0].active && !(Admitted(ts, ss[0]) && Roomy(ts, ss[0]))) {
      n := 0;
      assert ss != [] ==> SegmentOk(|ts|, ss[0]);
      forall k | 0 <= k < |ts| ensures TableAfter(ts[k], ss, 0, k, ts[k]) {
        NothingApplied(ts[k], ss, k);
      }
    } else {
      assert SegmentOk(|ts|, ss[0]);
      var ts', rest := After(ts, ss[0]), ss[1..];
      var m := AppliedMeaning(ts', rest);
      n := m + 1;
      var us := Applied(ts, ss).0;
      assert Applied(ts, ss) == Applied(ts', rest);
      forall k | 0 <= k < |ts| ensures TableAfter(ts[k], ss, n, k, us[k]) {
        TableAfterCons(ts, ss, m, k, us[k]);
      }
      SameAdmitted(ts, ss[0]);
      assert forall i | 0 <= i < |rest| :: rest[i] == ss[i + 1];
    }
  }

  lemma NothingApplied(t: Table, ss: seq<Segment>, k: nat)
    ensures TableAfter(t, ss, 0, k, t)
  {
  }

  lemma SameAdmitted(ts: seq<Table>, s: Segment)
    requires s.active ==> Roomy(ts, s)
    ensures forall r: Segment ::
              (Admitted(After(ts, s), r) <==> Admitted(ts, r)) && (Roomy(After(ts, s), r) <==> Roomy(ts, r))
  {
    hide Written, After;
    forall r: Segment
      ensures (Admitted(After(ts, s), r) <==> Admitted(ts, r)) && (Roomy(After(ts, s), r) <==> Roomy(ts, r))
    {
      if r.table < |ts| {
        AfterSizes(ts, s, r.table);
      }
    }
  }

  /** Growing: the new slots hold the initial value; nothing else of the table changes. */
  function Grown(t: Table, inc: nat, value: uint32): Table
    requires t.cur + inc <= |t.slots|
  {
    Table(t.cur + inc, t.slots[..t.cur] + seq(inc, _ => value) + t.slots[t.cur + inc..])
  }

  lemma SlotsWritten(w: seq<uint32>, v: seq<uint32>, p: nat, t: Table, offset: nat, elems: seq<uint32>)
    requires RecordAt(w, p, t) && |v| == |w| && offset + |elems| <= |t.slots|
    requires v[p + 2 + offset..p + 2 + offset + |elems|] == elems
    requires forall i | 0 <= i < |w| && !(p + 2 + offset <= i < p + 2 + offset + |elems|) :: v[i] == w[i]
    ensures RecordAt(v, p, Written(t, offset, elems))
  {
    var n, lo, hi := |t.slots|, p + 2 + offset, p + 2 + offset + |elems|;
    assert v[p + 2..lo] == w[p + 2..lo] == w[p + 2..p + 2 + n][..offset];
    assert v[lo..hi] == elems;
    assert v[hi..p + 2 + n] == w[hi..p + 2 + n] == w[p + 2..p + 2 + n][offset + |elems|..];
    assert v[p + 2..p + 2 + n] == v[p + 2..lo] + v[lo..hi] + v[hi..p + 2 + n];
  }

  lemma SlotsGrown(w: seq<uint32>, v: seq<uint32>, p: nat, t: Table, inc: nat, value: uint32)
    requires RecordAt(w, p, t) && |v| == |w| && t.cur + inc <= |t.slots|
    requires v[p] == t.cur + inc
    requires forall i | p + 2 + t.cur <= i < p + 2 + t.cur + inc :: v[i] == value
    requires forall i | 0 <= i < |w| && i != p && !(p + 2 + t.cur <= i < p + 2 + t.cur + inc) :: v[i] == w[i]
    ensures RecordAt(v, p, Grown(t, inc, value))
  {
    var n, lo, hi := |t.slots|, p + 2 + t.cur, p + 2 + t.cur + inc;
    assert v[p + 2..lo] == w[p + 2..lo] == w[p + 2..p + 2 + n][..t.cur];
    assert v[lo..hi] == seq(inc, _ => value);
    assert v[hi..p + 2 + n] == w[hi..p + 2 + n] == w[p + 2..p + 2 + n][t.cur + inc..];
    assert v[p + 2..p + 2 + n] == v[p + 2..lo] + v[lo..hi] + v[hi..p + 2 + n];
  }

  /** The table records of an instance. `tables` is what the region stands for. */
  class Region {
    var words: array<uint32>
    ghost var tables: seq<Table>

    ghost predicate Valid()
      reads this, words
    {
      Holds(words[..], tables) && words.Length < 0x4000_0000
    }

    /** Everything set to -1, then the record headers written in one walk. */
    constructor (ds: seq<Decl>)
      requires Offset(AllFresh(ds), |ds|) < 0x4000_0000
      ensures Valid() && tables == AllFresh(ds) && fresh(words)
      ensures forall i | 0 <= i < |ds| ::
                && tables[i].cur == ds[i].init
                && |tables[i].slots| == (if ds[i].growable then ds[i].max else ds[i].init)
                && forall x | 0 <= x < |tables[i].slots| :: tables[i].slots[x] == 0xFFFF_FFFF
    {
      var size := RegionSize(ds);
      words := new uint32[size](_ => UNINITIALIZED);
      tables := AllFresh(ds);
      new;
      WriteHeaders(ds);
    }

    method WriteHeaders(ds: seq<Decl>)
      requires tables == AllFresh(ds) && words.Length == Offset(tables, |ds|)
      requires forall k | 0 <= k < words.Length :: words[k] == UNINITIALIZED
      modifies words
      ensures Holds(words[..], tables)
    {
      hide RecordAt, Started, Fresh;
      StartedNone(words[..], tables);
      var p := 0;
      for i := 0 to |ds|
        invariant p == Offset(tables, i) && Started(words[..], tables, i)
        invariant forall k | p <= k < words.Length :: words[k] == UNINITIALIZED
      {
        OffsetsOrdered(tables, i, |ds|);
        assert tables[i] == Fresh(ds[i]);
        FreshSlots(ds[i]);
        ghost var before := words[..];
        words[p] := ds[i].init;
        words[p + 1] := Slots(ds[i]);
        FreshRecord(words[..], p, ds[i]);
        StartedNext(before, words[..], tables, i);
        p := p + 2 + words[p + 1];
      }
      StartedAll(words[..], tables);
    }

    /** `aot_get_table_inst`: the walk lands on the record of table `index`. */
    method Find(index: nat) returns (p: nat)
      requires Valid() && index <= |tables|
      ensures p == Offset(tables, index)
      ensures index == |tables| ==> p == words.Length
      ensures index < |tables| ==>
                && p + 2 + |tables[index].slots| <= words.Length
                && words[p] == tables[index].cur && words[p + 1] == |tables[index].slots|
                && forall x | 0 <= x < |tables[index].slots| :: words[p + 2 + x] == tables[index].slots[x]
    {
      hide Holds;
      p := 0;
      var i := 0;
      while i != index
        invariant 0 <= i <= index && p == Offset(tables, i)
      {
        RecordOf(words[..], tables, i);
        p := p + 2 + words[p + 1];
        i := i + 1;
      }
      if index < |tables| {
        RecordOf(words[..], tables, index);
        SlotsAt(words[..], p, tables[index]);
      } else {
        HoldsLength(words[..], tables);
      }
    }

    /** The segment loop of `table_instantiate`. */
    method ApplySegments(ss: seq<Segment>) returns (filling: Filling)
      requires Valid() && forall i | 0 <= i < |ss| :: SegmentOk(|tables|, ss[i])
      modifies words, this`tables
      ensures Valid() && (tables, filling) == Applied(old(tables), ss)
      ensures exists n: nat :: FilledUpTo(old(tables), ss, n, tables, filling)
    {
      hide Holds, Written, FilledUpTo;
      ghost var n := AppliedMeaning(tables, ss);
      var i := 0;
      while i < |ss|
        invariant 0 <= i <= |ss| && Valid() && |tables| == old(|tables|)
        invariant forall k | 0 <= k < |ss| :: SegmentOk(|tables|, ss[k])
        invariant Applied(tables, ss[i..]) == Applied(old(tables), ss)
      {
        var s := ss[i];
        assert ss[i..][0] == s && ss[i..][1..] == ss[i + 1..];
        if s.active {
          var p := Find(s.table);
          RecordOf(words[..], tables, s.table);
          if s.offset > words[p] || Wrap(s.offset + |s.elems|) > words[p] {
            return DoesNotFit;
          }
          if s.offset + |s.elems| > words[p + 1] {
            return Spills;
          }
          WriteSlots(s.table, p, s.offset, s.elems);
        }
        i := i + 1;
      }
      filling := Filled;
    }

    /** Copies `elems` into the slots of the record at `p`. */
    method WriteSlots(index: nat, p: nat, offset: nat, elems: seq<uint32>)
      requires Valid() && index < |tables| && p == Offset(tables, index) && offset + |elems| <= |tables[index].slots|
      modifies words, this`tables
      ensures Valid() && tables == old(tables)[index := Written(old(tables)[index], offset, elems)]
    {
      hide Holds;
      ghost var w, t := words[..], tables[index];
      RecordOf(w, tables, index);
      forall k | 0 <= k < |elems| {
        words[p + 2 + offset + k] := elems[k];
      }
      ghost var v := words[..];
      SlotsWritten(w, v, p, t, offset, elems);
      ReplacedRecord(w, v, tables, index, Written(t, offset, elems));
      tables := tables[index := Written(t, offset, elems)];
    }

    /** `aot_table_grow`. */
    method Grow(index: nat, inc: uint32, value: uint32) returns (r: uint32)
      requires Valid() && index < |tables|
      modifies words, this`tables
      ensures Valid()
      ensures var t := old(tables)[index];
              if inc == 0 then r == t.cur && tables == old(tables) && words[..] == old(words[..])
              else if t.cur + inc <= |t.slots| then r == t.cur && tables == old(tables)[index := Grown(t, inc, value)]
              else r == 0xFFFF_FFFF && tables == old(tables) && words[..] == old(words[..])
    {
      hide Holds;
      ghost var w, t := words[..], tables[index];
      var p := Find(index);
      RecordOf(w, tables, index);
      var orig := words[p];
      if inc == 0 {
        return orig;
      }
      if words[p] > UINT32_MAX - inc {
        return 0xFFFF_FFFF;
      }
      var count := words[p] + inc;
      if count > words[p + 1] {
        return 0xFFFF_FFFF;
      }
      Fill(p + 2 + orig, inc, value);
      words[p] := count;
      ghost var v := words[..];
      SlotsGrown(w, v, p, t, inc, value);
      ReplacedRecord(w, v, tables, index, Grown(t, inc, value));
      tables := tables[index := Grown(t, inc, value)];
      r := orig;
    }

    /** The fill loop. */
    method Fill(start: nat, n: nat, value: uint32)
      requires start + n <= words.Length
      modifies words
      ensures forall k | start <= k < start + n :: words[k] == value
      ensures forall k | 0 <= k < words.Length && !(start <= k < start + n) :: words[k] == old(words[k])
    {
      for i := 0 to n
        invariant forall k | start <= k < start + i :: words[k] == value
        invariant forall k | 0 <= k < words.Length && !(start <= k < start + i) :: words[k] == old(words[k])
      {
        words[start + i] := value;
      }
    }
  }

  /** The first `n` records are in place. */
  predicate Started(w: seq<uint32>, ts: seq<Table>, n: nat)
    requires n <= |ts|
  {
    forall k | 0 <= k < n :: RecordAt(w, Offset(ts, k), ts[k])
  }

  lemma StartedNone(w: seq<uint32>, ts: seq<Table>)
    ensures Started(w, ts, 0)
  {
  }

  lemma StartedAll(w: seq<uint32>, ts: seq<Table>)
    requires Started(w, ts, |ts|) && |w| == Offset(ts, |ts|)
    ensures Holds(w, ts)
  {
    hide RecordAt;
  }

  lemma StartedNext(before: seq<uint32>, after: seq<uint32>, ts: seq<Table>, i: nat)
    requires i < |ts| && Started(before, ts, i) && |after| == |before| && RecordAt(after, Offset(ts, i), ts[i])
    requires forall k | 0 <= k < |before| && !(Offset(ts, i) <= k < Offset(ts, i) + 2) :: after[k] == before[k]
    ensures Started(after, ts, i + 1)
  {
    hide RecordAt;
    forall k | 0 <= k < i
      ensures RecordAt(after, Offset(ts, k), ts[k])
    {
      OffsetsOrdered(ts, k, i);
      KeptRecord(before, after, Offset(ts, k), ts[k], Offset(ts, i), Offset(ts, i) + 2);
    }
  }

  lemma FreshSlots(d: Decl)
    ensures |Fresh(d).slots| == Slots(d)
  {
  }

  lemma FreshRecord(w: seq<uint32>, p: nat, d: Decl)
    requires p + 2 + Slots(d) <= |w| && w[p] == d.init && w[p + 1] == Slots(d)
    requires forall i | p + 2 <= i < |w| :: w[i] == UNINITIALIZED
    ensures RecordAt(w, p, Fresh(d))
  {
    assert w[p + 2..p + 2 + Slots(d)] == Fresh(d).slots;
  }

  /** The elements of a table. */
  function Live(t: Table): seq<uint32>
    requires t.cur <= |t.slots|
  {
    t.slots[..t.cur]
  }

  /** A run of grows on one table; those that do not fit leave it alone. */
  function AllGrown(t: Table, steps: seq<(nat, uint32)>): Table
    decreases steps
  {
    if steps == [] then t
    else
      var (inc, value) := steps[0];
      AllGrown(if t.cur + inc <= |t.slots| then Grown(t, inc, value) else t, steps[1..])
  }

  /** What the grows that fit add, `room` being the number of free slots. */
  function Added(room: int, steps: seq<(nat, uint32)>): seq<uint32> {
    if steps == [] then []
    else
      var (inc, value) := steps[0];
      if inc <= room then seq(inc, _ => value) + Added(room - inc, steps[1..]) else Added(room, steps[1..])
  }

  /**
   Over every run of grows the elements are the first ones followed by what each fitting grow added, the size stays
   within the maximum, which does not change, and the slots that are still free are as they were.
   */
  lemma {:induction false} GrowsAppend(t: Table, steps: seq<(nat, uint32)>)
    requires t.cur <= |t.slots|
    ensures var u := AllGrown(t, steps);
            && t.cur <= u.cur <= |u.slots| == |t.slots|
            && Live(u) == Live(t) + Added(|t.slots| - t.cur, steps) && u.slots[u.cur..] == t.slots[u.cur..]
    decreases steps
  {
    if steps != [] {
      var (inc, value) := steps[0];
      var v := if t.cur + inc <= |t.slots| then Grown(t, inc, value) else t;
      GrowsAppend(v, steps[1..]);
      if t.cur + inc <= |t.slots| {
        var u := AllGrown(t, steps);
        assert Live(v) == Live(t) + seq(inc, _ => value);
        assert v.slots[v.cur..] == t.slots[v.cur..];
        assert u.slots[u.cur..] == v.slots[v.cur..][u.cur - v.cur..];
      }
    }
  }

  /** Tables within their maximum stay so under segments, and none of the segments spills. */
  lemma {:induction false} SegmentsKeepWithin(ts: seq<Table>, ss: seq<Segment>)
    requires Within(ts) && (forall i | 0 <= i < |ts| :: |ts[i].slots| < 0x4000_0000)
    requires forall i | 0 <= i < |ss| :: SegmentOk(|ts|, ss[i])
    ensures Within(Applied(ts, ss).0) && Applied(ts, ss).1 != Spills
    decreases ss
  {
    if ss != [] {
      assert SegmentOk(|ts|, ss[0]);
      if !ss[0].active {
        SegmentsKeepWithin(ts, ss[1..]);
      } else if SegmentFits(ts, ss[0]) {
        SegmentsKeepWithin(ts[ss[0].table := Written(ts[ss[0].table], ss[0].offset, ss[0].elems)], ss[1..]);
      }
    }
  }

  /** After segments have been applied, a table no segment names is untouched, and sizes never change. */
  lemma {:induction false} OtherTablesUntouched(ts: seq<Table>, ss: seq<Segment>, k: nat)
    requires forall i | 0 <= i < |ss| :: SegmentOk(|ts|, ss[i])
    requires k < |ts|
    ensures var us := Applied(ts, ss).0;
            && us[k].cur == ts[k].cur && |us[k].slots| == |ts[k].slots|
            && ((forall i | 0 <= i < |ss| :: !(ss[i].active && ss[i].table == k)) ==> us[k] == ts[k])
    decreases ss
  {
    if ss != [] {
      if !ss[0].active {
        OtherTablesUntouched(ts, ss[1..], k);
      } else if SegmentFits(ts, ss[0]) && ss[0].offset + |ss[0].elems| <= |ts[ss[0].table].slots| {
        var ts' := ts[ss[0].table := Written(ts[ss[0].table], ss[0].offset, ss[0].elems)];
        OtherTablesUntouched(ts', ss[1..], k);
      }
    }
  }
}
