/**
 AOT files by offsets: where the records of a file lie, and what becomes of each in the list that `create_sections` of
 core/iwasm/aot/aot_loader.c builds and in the message that the install receiver hands over.
 */
module Layout {
  import opened Bytes
  import opened Install
  import opened Reception
  import opened AotFile
  import opened Payloads
  import opened Streaming

  function Kind(buf: seq<byte>, a: nat): uint32
    requires a + 8 <= |buf|
  {
    U32At(buf, a)
  }

  function Size(buf: seq<byte>, a: nat): uint32
    requires a + 8 <= |buf|
  {
    U32At(buf, a + 4)
  }

  /** A record at `a`: an aligned header of eight bytes and its body, inside the file. */
  predicate IsRecord(buf: seq<byte>, a: nat) {
    a % 4 == 0 && a + 8 <= |buf| && a + 8 + Size(buf, a) <= |buf|
  }

  function End(buf: seq<byte>, a: nat): nat
    requires IsRecord(buf, a)
  {
    a + 8 + Size(buf, a)
  }

  function FileBytes(buf: seq<byte>, a: nat): seq<byte>
    requires IsRecord(buf, a)
  {
    buf[a + 8..End(buf, a)]
  }

  predicate AllRecords(buf: seq<byte>, at: seq<nat>) {
    forall k | 0 <= k < |at| :: IsRecord(buf, at[k])
  }

  /** The records at these offsets take up the file from `p` on, each behind the one before with at most three bytes. */
  predicate Tiles(buf: seq<byte>, p: nat, at: seq<nat>) {
    && AllRecords(buf, at) && at != [] && p <= at[0] < p + 4
    && (forall k | 0 <= k < |at| - 1 :: End(buf, at[k]) <= at[k + 1] < End(buf, at[k]) + 4)
    && End(buf, at[|at| - 1]) == |buf|
  }

  lemma TilesOne(buf: seq<byte>, p: nat, a: nat)
    requires IsRecord(buf, a) && p <= a < p + 4 && End(buf, a) == |buf|
    ensures Tiles(buf, p, [a])
  {
    hide IsRecord, Size;
  }

  lemma TilesCons(buf: seq<byte>, p: nat, a: nat, at: seq<nat>)
    requires IsRecord(buf, a) && p <= a < p + 4 && Tiles(buf, End(buf, a), at)
    ensures Tiles(buf, p, [a] + at)
  {
    hide IsRecord, Size;
    var all := [a] + at;
    assert forall k | 1 <= k < |all| :: all[k] == at[k - 1];
    assert all[|all| - 1] == at[|at| - 1];
  }

  lemma TilesRest(buf: seq<byte>, p: nat, at: seq<nat>)
    requires Tiles(buf, p, at)
    ensures IsRecord(buf, at[0]) && (|at| == 1 ==> End(buf, at[0]) == |buf|)
    ensures |at| > 1 ==> End(buf, at[0]) < |buf| && Tiles(buf, End(buf, at[0]), at[1..])
  {
    hide Size;
    var rest := at[1..];
    assert forall k | 0 <= k < |rest| :: rest[k] == at[k + 1];
    if |at| > 1 {
      assert IsRecord(buf, at[1]) && rest[|rest| - 1] == at[|at| - 1];
    }
  }

  lemma AlignedStart(p: nat, a: nat)
    requires a % 4 == 0 && p <= a < p + 4
    ensures Align4(p) == a
  {
  }

  lemma RecordThere(buf: seq<byte>, a: nat)
    requires a % 4 == 0 && RecordAt(buf, a)
    ensures IsRecord(buf, a) && RecordEnd(buf, a) == End(buf, a)
    ensures Section(U32At(buf, a), U32At(buf, a + 4), buf[a + 8..RecordEnd(buf, a)]) == Raw(buf, a)
  {
    hide FromLE32;
  }

  /** The section of a record, as it lies in the file. */
  function Raw(buf: seq<byte>, a: nat): Section
    requires IsRecord(buf, a)
  {
    Section(Kind(buf, a), Size(buf, a), FileBytes(buf, a))
  }

  // What becomes of a record

  /**
   What is kept of a record. Text that is padded keeps the bytes of the file in front and has zeros behind them, up to
   the least multiple of four that leaves room for the PLT; any other section is the bytes of the file.
   */
  predicate Kept(plt: nat, pads: bool, kind: uint32, b: seq<byte>, s: Section) {
    && s.kind == kind && s.size == |s.body|
    && if pads && kind == 2 && b != [] then
         && |s.body| % 4 == 0 && |b| + plt <= |s.body| < |b| + plt + 4
         && s.body[..|b|] == b && forall i | |b| <= i < |s.body| :: s.body[i] == 0
       else s.body == b
  }

  /** Text has room for its PLT below 4 GiB. */
  predicate HasRoom(plt: nat, kind: uint32, size: nat) {
    kind == 2 && size > 0 ==> size + plt <= 0xFFFF_FFFC
  }

  lemma FitsIsRoom(cfg: Config, s: Section)
    ensures TextFits(cfg, s) <==> HasRoom(cfg.pltSize, s.kind, s.size)
  {
  }

  lemma PaddedKept(cfg: Config, s: Section)
    requires |s.body| == s.size && TextFits(cfg, s)
    ensures Kept(cfg.pltSize, true, s.kind, s.body, if s.size > 0 then PadText(cfg, s) else s)
  {
    if s.kind == AOT_TEXT && s.size > 0 {
      SmallPaddedSize(cfg, s.size);
      var t := PadText(cfg, s);
      assert PaddedTextSize(cfg, s.size) >= s.size + cfg.pltSize;
      assert t.body[..s.size] == s.body;
    }
  }

  /** The records of the file are kept, one section each. */
  predicate AllKept(cfg: Config, pads: bool, buf: seq<byte>, at: seq<nat>, ss: seq<Section>)
    requires AllRecords(buf, at)
  {
    |ss| == |at|
    && forall k | 0 <= k < |at| :: Kept(cfg.pltSize, pads, Kind(buf, at[k]), FileBytes(buf, at[k]), ss[k])
  }

  predicate AllRaw(buf: seq<byte>, at: seq<nat>, raw: seq<Section>)
    requires AllRecords(buf, at)
  {
    |raw| == |at| && forall k | 0 <= k < |at| :: raw[k] == Raw(buf, at[k])
  }

  // The batch parser

  lemma {:induction false} RawTiles(buf: seq<byte>, p: nat, raw: seq<Section>) returns (at: seq<nat>)
    requires p < |buf| && RawSections(buf, p) == Some(raw)
    ensures Tiles(buf, p, at) && AllRaw(buf, at, raw) && AllLoadable(raw)
    decreases |buf| - p
  {
    hide FromLE32, RawSections, Tiles, LoadableKind, IsRecord;
    FirstRecord(buf, p, raw);
    var a := Align4(p);
    RecordThere(buf, a);
    LoadableCons(raw);
    if |raw| == 1 {
      at := [a];
      TilesOne(buf, p, a);
      assert AllLoadable(raw[1..]);
    } else {
      var rest := RawTiles(buf, End(buf, a), raw[1..]);
      at := [a] + rest;
      TilesCons(buf, p, a, rest);
      TilesRecords(buf, p, at);
      TilesRecords(buf, End(buf, a), rest);
      assert forall k | 1 <= k < |at| :: at[k] == rest[k - 1] && raw[k] == raw[1..][k - 1];
    }
    TilesRecords(buf, p, at);
  }

  lemma TilesRecords(buf: seq<byte>, p: nat, at: seq<nat>)
    requires Tiles(buf, p, at)
    ensures AllRecords(buf, at) && at != []
  {
  }

  lemma {:induction false} TilesRaw(buf: seq<byte>, p: nat, at: seq<nat>)
    requires Tiles(buf, p, at) && AllRecords(buf, at) && forall k | 0 <= k < |at| :: LoadableKind(Kind(buf, at[k]))
    ensures RawSections(buf, p).Some? && AllRaw(buf, at, RawSections(buf, p).value)
    decreases |at|
  {
    hide FromLE32, RawSections, Tiles, LoadableKind, IsRecord;
    TilesStart(buf, p, at);
    var a, rest := at[0], at[1..];
    TilesRest(buf, p, at);
    AlignedStart(p, a);
    RecordIs(buf, a);
    RecordThere(buf, a);
    RawStep(buf, p);
    assert forall k | 0 <= k < |rest| :: rest[k] == at[k + 1];
    if |at| == 1 {
      RawAtFileEnd(buf);
    } else {
      TilesRecords(buf, End(buf, a), rest);
      TilesRaw(buf, End(buf, a), rest);
      var raw := RawSections(buf, p).value;
      assert raw[1..] == RawSections(buf, End(buf, a)).value;
      forall k | 0 <= k < |at| ensures raw[k] == Raw(buf, at[k]) {
        if k > 0 {
          assert raw[k] == raw[1..][k - 1];
        }
      }
    }
  }

  lemma RawAtFileEnd(buf: seq<byte>)
    ensures RawSections(buf, |buf|) == Some([])
  {
  }

  lemma TilesStart(buf: seq<byte>, p: nat, at: seq<nat>)
    requires Tiles(buf, p, at)
    ensures at != [] && at[0] % 4 == 0 && p <= at[0] < p + 4 && p < |buf|
  {
    hide Size;
  }

  lemma RecordIs(buf: seq<byte>, a: nat)
    requires IsRecord(buf, a)
    ensures RecordAt(buf, a) && a % 4 == 0
  {
    hide FromLE32;
  }

  lemma LoadableNumbers(kind: uint32)
    ensures LoadableKind(kind) <==> kind <= 5 || kind == 100
  {
  }

  /** The file can be loaded: records throughout, of known kinds, with room for the PLT where text gets one. */
  predicate LoadableFile(cfg: Config, native: uint32, buf: seq<byte>, at: seq<nat>) {
    && Tiles(buf, 8, at) && AllRecords(buf, at)
    && (forall k | 0 <= k < |at| :: Kind(buf, at[k]) <= 5 || Kind(buf, at[k]) == 100)
    && (native == 0 ==> forall k | 0 <= k < |at| :: HasRoom(cfg.pltSize, Kind(buf, at[k]), Size(buf, at[k])))
  }

  lemma RoomOfAll(cfg: Config, buf: seq<byte>, at: seq<nat>, raw: seq<Section>)
    requires AllRecords(buf, at) && AllRaw(buf, at, raw)
    ensures AllTextFits(cfg, raw) <==>
            forall k | 0 <= k < |at| :: HasRoom(cfg.pltSize, Kind(buf, at[k]), Size(buf, at[k]))
  {
    hide FromLE32, TextFits, HasRoom;
    forall k | 0 <= k < |at|
      ensures TextFits(cfg, raw[k]) <==> HasRoom(cfg.pltSize, Kind(buf, at[k]), Size(buf, at[k]))
    {
      FitsIsRoom(cfg, raw[k]);
      assert raw[k] == Raw(buf, at[k]);
    }
  }

  lemma KindsOfAll(buf: seq<byte>, at: seq<nat>, raw: seq<Section>)
    requires AllRecords(buf, at) && AllRaw(buf, at, raw) && AllLoadable(raw)
    ensures forall k | 0 <= k < |at| :: Kind(buf, at[k]) <= 5 || Kind(buf, at[k]) == 100
  {
    hide FromLE32, LoadableKind;
    forall k | 0 <= k < |at| ensures Kind(buf, at[k]) <= 5 || Kind(buf, at[k]) == 100 {
      LoadableNumbers(raw[k].kind);
      assert raw[k] == Raw(buf, at[k]);
    }
  }

  /** Placed sections are kept ones. */
  lemma PlacedKept(cfg: Config, native: uint32, buf: seq<byte>, at: seq<nat>, raw: seq<Section>)
    requires AllRecords(buf, at) && AllRaw(buf, at, raw) && (native == 0 ==> AllTextFits(cfg, raw))
    ensures AllKept(cfg, native == 0, buf, at, AllPlaced(cfg, native, raw))
  {
    hide FromLE32, TextFits, PadText, Kept;
    var list := AllPlaced(cfg, native, raw);
    forall k | 0 <= k < |at|
      ensures Kept(cfg.pltSize, native == 0, Kind(buf, at[k]), FileBytes(buf, at[k]), list[k])
    {
      var s := raw[k];
      assert s == Raw(buf, at[k]) && |s.body| == s.size && list[k] == Placed(cfg, native, s);
      if native == 0 {
        PaddedKept(cfg, s);
      } else {
        AsIsKept(cfg.pltSize, s);
      }
    }
  }

  lemma AsIsKept(plt: nat, s: Section)
    requires |s.body| == s.size
    ensures Kept(plt, false, s.kind, s.body, s)
  {
  }

  /**
   The batch parser in terms of the file. A file is accepted if and only if the scan for native symbols does not fail
   and the file is records from its head to its end, of known kinds, with room for the PLT where text gets one. The list
   then keeps the records in their order, and text gets its PLT area unless there are native symbols.
   */
  lemma CreatedExactly(cfg: Config, buf: seq<byte>)
    ensures CreatedSections(cfg, buf).Some? <==>
            NativeSymbols(buf, 8).Some? && exists at :: LoadableFile(cfg, NativeSymbols(buf, 8).value, buf, at)
    ensures CreatedSections(cfg, buf).Some? ==>
              exists at :: && LoadableFile(cfg, NativeSymbols(buf, 8).value, buf, at)
                           && AllKept(cfg, NativeSymbols(buf, 8) == Some(0), buf, at, CreatedSections(cfg, buf).value)
  {
    hide FromLE32, RawSections, NativeSymbols, Tiles, AllTextFits, AllPlaced, AllRaw, IsRecord, AllKept, LoadableFile;
    if CreatedSections(cfg, buf).Some? {
      var at := CreatedAt(cfg, buf);
    }
    if NativeSymbols(buf, 8).Some? && exists at :: LoadableFile(cfg, NativeSymbols(buf, 8).value, buf, at) {
      var at :| LoadableFile(cfg, NativeSymbols(buf, 8).value, buf, at);
      LoadableCreated(cfg, buf, at);
    }
  }

  lemma CreatedAt(cfg: Config, buf: seq<byte>) returns (at: seq<nat>)
    requires CreatedSections(cfg, buf).Some?
    ensures LoadableFile(cfg, NativeSymbols(buf, 8).value, buf, at)
    ensures AllKept(cfg, NativeSymbols(buf, 8) == Some(0), buf, at, CreatedSections(cfg, buf).value)
  {
    hide FromLE32, RawSections, NativeSymbols, Tiles, AllTextFits, AllPlaced, AllRaw, IsRecord, AllKept;
    var raw, native := RawSections(buf, 8).value, NativeSymbols(buf, 8).value;
    if 8 >= |buf| {
      NothingRaw(buf);
    } else {
      at := RawTiles(buf, 8, raw);
      TilesRecords(buf, 8, at);
      RoomOfAll(cfg, buf, at, raw);
      KindsOfAll(buf, at, raw);
      PlacedKept(cfg, native, buf, at, raw);
    }
  }

  lemma NothingRaw(buf: seq<byte>)
    requires 8 >= |buf|
    ensures RawSections(buf, 8) == Some([])
  {
  }

  lemma LoadableCreated(cfg: Config, buf: seq<byte>, at: seq<nat>)
    requires NativeSymbols(buf, 8).Some? && LoadableFile(cfg, NativeSymbols(buf, 8).value, buf, at)
    ensures CreatedSections(cfg, buf).Some?
  {
    hide FromLE32, RawSections, NativeSymbols, Tiles, AllTextFits, AllPlaced, AllRaw, LoadableKind;
    forall k | 0 <= k < |at| ensures LoadableKind(Kind(buf, at[k])) {
      LoadableNumbers(Kind(buf, at[k]));
    }
    TilesRaw(buf, 8, at);
    RoomOfAll(cfg, buf, at, RawSections(buf, 8).value);
    SomeRaw(buf, at, RawSections(buf, 8).value);
  }

  lemma SomeRaw(buf: seq<byte>, at: seq<nat>, raw: seq<Section>)
    requires Tiles(buf, 8, at) && AllRecords(buf, at) && AllRaw(buf, at, raw)
    ensures raw != []
  {
  }

  // Native symbols

  /** The scan stops at this record: a custom section that names native symbols, or ends before it can tell. */
  predicate StopsScan(buf: seq<byte>, a: nat)
    requires IsRecord(buf, a)
  {
    Kind(buf, a) == 100 && (a + 12 > |buf| || U32At(buf, a + 8) == 1)
  }

  /**
   The native symbol count is the word behind the sub-type in the first custom section with sub-type 1, and 0 without
   one; the scan fails if that word, or a sub-type on the way, lies behind the file.
   */
  lemma {:induction false} NativeExactly(buf: seq<byte>, p: nat, at: seq<nat>, k: nat)
    requires Tiles(buf, p, at) && AllRecords(buf, at) && k <= |at|
    requires forall j | 0 <= j < |at| :: Kind(buf, at[j]) <= 5 || Kind(buf, at[j]) == 100
    requires (forall j | 0 <= j < k :: !StopsScan(buf, at[j])) && (k < |at| ==> StopsScan(buf, at[k]))
    ensures NativeSymbols(buf, p) ==
            if k == |at| then Some(0) else if at[k] + 16 > |buf| then None else Some(U32At(buf, at[k] + 12))
    decreases |at|
  {
    hide FromLE32, Tiles;
    TilesStart(buf, p, at);
    var a, rest := at[0], at[1..];
    TilesRest(buf, p, at);
    AlignedStart(p, a);
    if k > 0 {
      assert !StopsScan(buf, a);
      assert NativeSymbols(buf, p) == NativeSymbols(buf, End(buf, a));
      if |at| > 1 {
        TilesRecords(buf, End(buf, a), rest);
        assert forall j | 0 <= j < |rest| :: rest[j] == at[j + 1];
        NativeExactly(buf, End(buf, a), rest, k - 1);
      }
    }
  }

  // The receiver

  /** The receiver takes the record: a known kind, a body, and room for the PLT if it is text. */
  predicate Takes(cfg: Config, buf: seq<byte>, a: nat)
    requires IsRecord(buf, a)
  {
    var kind := Kind(buf, a);
    && (kind <= 5 || kind == 100 || kind >= 0x8000_0000)
    && Size(buf, a) > 0 && HasRoom(cfg.pltSize, kind, Size(buf, a))
  }

  predicate TakesAll(cfg: Config, buf: seq<byte>, at: seq<nat>)
    requires AllRecords(buf, at)
  {
    forall k | 0 <= k < |at| :: Takes(cfg, buf, at[k])
  }

  lemma KnownNumbers(kind: uint32)
    ensures KnownAotSection(kind) <==> kind <= 5 || kind == 100 || kind >= 0x8000_0000
  {
  }

  /** What is read at the head of a whole reading. */
  lemma FirstRead(cfg: Config, pre: seq<byte>, buf: seq<byte>, p: nat, ss: seq<Section>)
    requires AotSections(cfg, pre + buf, |pre|, |pre| + p) == Whole(ss)
    ensures var a := Align4(p);
            && IsRecord(buf, a) && Takes(cfg, buf, a) && ss != []
            && Kept(cfg.pltSize, true, Kind(buf, a), FileBytes(buf, a), ss[0])
            && if End(buf, a) == |buf| then |ss| == 1
               else AotSections(cfg, pre + buf, |pre|, |pre| + End(buf, a)) == Whole(ss[1..])
  {
    hide FromLE32, KnownAotSection, PadText, TextFits, HasRoom, AotSections, Kept;
    WholeRecord(cfg, pre, buf, p);
    FromAligned(cfg, pre, buf, p);
    var a := Align4(p);
    RecordThere(buf, a);
    var s := Raw(buf, a);
    assert |s.body| == s.size;
    KnownNumbers(s.kind);
    FitsIsRoom(cfg, s);
    PaddedKept(cfg, s);
  }

  lemma TakenCons(cfg: Config, buf: seq<byte>, a: nat, at: seq<nat>, ss: seq<Section>)
    requires IsRecord(buf, a) && Takes(cfg, buf, a) && AllRecords(buf, at) && TakesAll(cfg, buf, at) && ss != []
    requires Kept(cfg.pltSize, true, Kind(buf, a), FileBytes(buf, a), ss[0]) && AllKept(cfg, true, buf, at, ss[1..])
    ensures AllRecords(buf, [a] + at) && TakesAll(cfg, buf, [a] + at) && AllKept(cfg, true, buf, [a] + at, ss)
  {
    hide FromLE32, Takes, Kept;
    var all, rest := [a] + at, ss[1..];
    assert forall k | 1 <= k < |all| :: all[k] == at[k - 1] && ss[k] == rest[k - 1];
  }

  lemma {:induction false} ReadTiles(cfg: Config, pre: seq<byte>, buf: seq<byte>, p: nat, ss: seq<Section>)
    returns (at: seq<nat>)
    requires AotSections(cfg, pre + buf, |pre|, |pre| + p) == Whole(ss)
    ensures Tiles(buf, p, at) && AllRecords(buf, at) && AllKept(cfg, true, buf, at, ss) && TakesAll(cfg, buf, at)
    decreases |buf| - p
  {
    hide Takes, AotSections, Tiles, Kept, AllKept, TakesAll, AllRecords, Size;
    FirstRead(cfg, pre, buf, p, ss);
    var a := Align4(p);
    if End(buf, a) == |buf| {
      at := [a];
      TilesOne(buf, p, a);
      NothingTaken(cfg, buf, ss[1..]);
      TakenCons(cfg, buf, a, [], ss);
      assert [a] + [] == [a];
    } else {
      var rest := ReadTiles(cfg, pre, buf, End(buf, a), ss[1..]);
      at := [a] + rest;
      TilesCons(buf, p, a, rest);
      TakenCons(cfg, buf, a, rest, ss);
    }
  }

  lemma NothingTaken(cfg: Config, buf: seq<byte>, ss: seq<Section>)
    requires ss == []
    ensures AllRecords(buf, []) && TakesAll(cfg, buf, []) && AllKept(cfg, true, buf, [], ss)
  {
  }

  lemma {:induction false} TilesRead(cfg: Config, pre: seq<byte>, buf: seq<byte>, p: nat, at: seq<nat>)
    requires Tiles(buf, p, at) && AllRecords(buf, at) && TakesAll(cfg, buf, at)
    ensures AotSections(cfg, pre + buf, |pre|, |pre| + p).Whole?
    decreases |at|
  {
    hide FromLE32, KnownAotSection, PadText, TextFits, HasRoom, AotSections, Tiles;
    TilesStart(buf, p, at);
    var a, rest := at[0], at[1..];
    TilesRest(buf, p, at);
    AlignedStart(p, a);
    RecordIs(buf, a);
    RecordThere(buf, a);
    assert Takes(cfg, buf, a);
    KnownNumbers(Kind(buf, a));
    FitsIsRoom(cfg, Raw(buf, a));
    FromAligned(cfg, pre, buf, p);
    if |at| > 1 {
      TilesRecords(buf, End(buf, a), rest);
      assert forall k | 0 <= k < |rest| :: rest[k] == at[k + 1];
      TilesRead(cfg, pre, buf, End(buf, a), rest);
    }
  }

  /**
   The receiver in terms of the file. A request is handed over if and only if there is a URL and the file is records
   from its head to its end that the receiver takes. The message keeps the records in their order, text with its PLT
   area.
   */
  lemma HandedExactly(cfg: Config, c: Ctx, h: Header, buf: seq<byte>)
    requires Idle(c) && cfg.postOk && |h.url| < 0x1_0000 && IsAot(buf)
    ensures Wf(c)
    ensures (exists m :: HandedOnLastByte(cfg, c, Request(h, buf), m)) <==>
            h.url != [] && exists at :: Tiles(buf, 8, at) && AllRecords(buf, at) && TakesAll(cfg, buf, at)
    ensures forall m | HandedOnLastByte(cfg, c, Request(h, buf), m) ::
              exists at :: Tiles(buf, 8, at) && AllRecords(buf, at) && AllKept(cfg, true, buf, at, m.sections)
  {
    hide Step, Feed, FixedPart, Read, FileHead, HandedOnLastByte, AotSections, LeavesBlock, Unfinished, Dropped,
         Intended, Onto, Tiles, AllRecords, AllKept, TakesAll;
    var pre := FixedPart(h) + h.url;
    var read := AotSections(cfg, Request(h, buf), |pre|, |pre| + 8);
    ReadExactly(cfg, c, Request(h, buf));
    RequestRead(cfg, h, buf);
    forall m | HandedOnLastByte(cfg, c, Request(h, buf), m)
      ensures exists at :: && Tiles(buf, 8, at) && AllRecords(buf, at) && AllKept(cfg, true, buf, at, m.sections)
                           && TakesAll(cfg, buf, at)
    {
      OntoWhole(h, read, m);
      var at := ReadTiles(cfg, pre, buf, 8, m.sections);
    }
    if h.url != [] && exists at :: Tiles(buf, 8, at) && AllRecords(buf, at) && TakesAll(cfg, buf, at) {
      var at :| Tiles(buf, 8, at) && AllRecords(buf, at) && TakesAll(cfg, buf, at);
      TilesRead(cfg, pre, buf, 8, at);
      assert Onto(Intended(h, []), read).Whole? by { OntoIs(Intended(h, []), read); }
      assert HandedOnLastByte(cfg, c, Request(h, buf), Read(cfg, Request(h, buf)).value);
    }
  }

  lemma OntoIs(m: Message, r: Reading<seq<Section>>)
    requires r.Whole?
    ensures Onto(m, r).Whole?
  {
  }
}
