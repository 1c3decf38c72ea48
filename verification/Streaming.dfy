/**
 The install receiver against the batch parser of AOT files: fed a file one byte at a time, it builds the section list
 that `create_sections` of core/iwasm/aot/aot_loader.c builds from the whole file.
 */
module Streaming {
  import opened Bytes
  import opened Install
  import opened Reception
  import opened AotFile
  import opened Payloads

  predicate NonEmpty(ss: seq<Section>) {
    forall i | 0 <= i < |ss| :: ss[i].size > 0
  }

  /** Some section other than the last is empty. */
  predicate EmptyBeforeLast(ss: seq<Section>) {
    exists i | 0 <= i < |ss| - 1 :: ss[i].size == 0
  }

  /** Some section other than the last is empty, and no text before it is too big. */
  predicate StraysFirst(cfg: Config, ss: seq<Section>) {
    exists i | 0 <= i < |ss| - 1 :: ss[i].size == 0 && AllTextFits(cfg, ss[..i])
  }

  /** Some text is too big to map with its PLT, and no section before it is empty. */
  predicate TooBigFirst(cfg: Config, ss: seq<Section>) {
    exists i | 0 <= i < |ss| :: !TextFits(cfg, ss[i]) && NonEmpty(ss[..i])
  }

  /** What the receiver makes of the sections of a file. */
  function Fate(cfg: Config, raw: seq<Section>): Reading<seq<Section>> {
    if raw == [] then Cut
    else if !TextFits(cfg, raw[0]) then Refused
    else if raw[0].size == 0 then if |raw| == 1 then Cut else Astray
    else if |raw| == 1 then Whole([PadText(cfg, raw[0])])
    else Prepended(PadText(cfg, raw[0]), Fate(cfg, raw[1..]))
  }

  /** The record that the parse from `p` starts with. */
  lemma FirstRecord(buf: seq<byte>, p: nat, raw: seq<Section>)
    requires p < |buf| && RawSections(buf, p) == Some(raw)
    ensures raw != [] && RecordAt(buf, Align4(p)) && LoadableKind(raw[0].kind)
    ensures var q := Align4(p);
            && raw[0] == Section(U32At(buf, q), U32At(buf, q + 4), buf[q + 8..RecordEnd(buf, q)])
            && RawSections(buf, RecordEnd(buf, q)) == Some(raw[1..])
            && (|raw| == 1 <==> RecordEnd(buf, q) == |buf|)
  {
    hide FromLE32;
  }

  /** Words and bytes of a file behind `pre`. */
  lemma Shifted(pre: seq<byte>, buf: seq<byte>, q: nat)
    requires RecordAt(buf, q)
    ensures var bs, at := pre + buf, |pre| + q;
            && U32At(bs, at) == U32At(buf, q) && U32At(bs, at + 4) == U32At(buf, q + 4)
            && bs[at + 8..at + 8 + U32At(buf, q + 4)] == buf[q + 8..RecordEnd(buf, q)]
  {
    hide FromLE32;
    var bs, at := pre + buf, |pre| + q;
    assert bs[at..at + 4] == buf[q..q + 4] && bs[at + 4..at + 8] == buf[q + 4..q + 8];
  }

  /** Any reading of sections from `p` is that from the aligned offset. */
  lemma FromAligned(cfg: Config, pre: seq<byte>, buf: seq<byte>, p: nat)
    requires RecordAt(buf, Align4(p)) && KnownAotSection(U32At(buf, Align4(p)))
    ensures var bs, q := pre + buf, Align4(p);
            var s, end := Section(U32At(buf, q), U32At(buf, q + 4), buf[q + 8..RecordEnd(buf, q)]), RecordEnd(buf, q);
            AotSections(cfg, bs, |pre|, |pre| + p) ==
            if !TextFits(cfg, s) then Refused
            else if s.size == 0 then if |buf| == end then Cut else Astray
            else if end == |buf| then Whole([PadText(cfg, s)])
            else Prepended(PadText(cfg, s), AotSections(cfg, bs, |pre|, |pre| + end))
  {
    hide FromLE32, KnownAotSection, PadText, PaddedTextSize, AotSections;
    var q := Align4(p);
    Shifted(pre, buf, q);
    SameFromAligned(cfg, pre + buf, |pre|, |pre| + p);
    RecordRead(cfg, pre + buf, |pre|, |pre| + q);
  }

  /** A file that the batch parser can take apart is read according to its sections. */
  lemma {:induction false} RawRead(cfg: Config, pre: seq<byte>, buf: seq<byte>, p: nat, raw: seq<Section>)
    requires RawSections(buf, p) == Some(raw)
    ensures AotSections(cfg, pre + buf, |pre|, |pre| + p) == Fate(cfg, raw)
    decreases |buf| - p
  {
    hide FromLE32, PadText, PaddedTextSize, AotSections, RawSections;
    if p >= |buf| {
      NothingRead(cfg, pre, buf, p, raw);
    } else {
      FirstRecord(buf, p, raw);
      FromAligned(cfg, pre, buf, p);
      RawRead(cfg, pre, buf, RecordEnd(buf, Align4(p)), raw[1..]);
    }
  }

  lemma NothingRead(cfg: Config, pre: seq<byte>, buf: seq<byte>, p: nat, raw: seq<Section>)
    requires p >= |buf| && RawSections(buf, p) == Some(raw)
    ensures raw == [] && AotSections(cfg, pre + buf, |pre|, |pre| + p) == Cut
  {
    hide FromLE32, PadText, PaddedTextSize;
  }

  // What becomes of a list

  lemma EmptyFits(cfg: Config, s: Section)
    ensures s.size == 0 ==> TextFits(cfg, s)
  {
  }

  lemma {:induction false} FateWhole(cfg: Config, raw: seq<Section>)
    ensures Fate(cfg, raw).Whole? <==> raw != [] && NonEmpty(raw) && AllTextFits(cfg, raw)
    ensures Fate(cfg, raw).Whole? ==> Fate(cfg, raw).value == AllPlaced(cfg, 0, raw)
  {
    hide TextFits, PadText;
    if raw != [] {
      var rest := raw[1..];
      FateWhole(cfg, rest);
      assert forall i | 0 <= i < |rest| :: rest[i] == raw[i + 1];
      assert TextFits(cfg, raw[0]) && AllTextFits(cfg, rest) <==> AllTextFits(cfg, raw);
    }
  }

  lemma {:induction false} FateAstray(cfg: Config, raw: seq<Section>)
    ensures Fate(cfg, raw) == Astray <==> StraysFirst(cfg, raw)
  {
    hide PadText, TextFits;
    if raw != [] {
      var rest := raw[1..];
      FateAstray(cfg, rest);
      EmptyFits(cfg, raw[0]);
      if StraysFirst(cfg, raw) {
        var i :| 0 <= i < |raw| - 1 && raw[i].size == 0 && AllTextFits(cfg, raw[..i]);
        if i > 0 {
          assert TextFits(cfg, raw[..i][0]);
          assert rest[..i - 1] == raw[..i][1..];
          assert rest[i - 1].size == 0 && AllTextFits(cfg, rest[..i - 1]);
        }
      }
      if TextFits(cfg, raw[0]) && StraysFirst(cfg, rest) {
        var i :| 0 <= i < |rest| - 1 && rest[i].size == 0 && AllTextFits(cfg, rest[..i]);
        assert raw[..i + 1] == [raw[0]] + rest[..i];
        assert raw[i + 1].size == 0 && AllTextFits(cfg, raw[..i + 1]);
      }
      if raw[0].size == 0 && |raw| > 1 {
        assert raw[..0] == [];
        assert raw[0].size == 0 && AllTextFits(cfg, raw[..0]);
      }
    }
  }

  lemma {:induction false} FateRefused(cfg: Config, raw: seq<Section>)
    ensures Fate(cfg, raw) == Refused <==> TooBigFirst(cfg, raw)
  {
    hide PadText, TextFits;
    if raw != [] {
      var rest := raw[1..];
      FateRefused(cfg, rest);
      EmptyFits(cfg, raw[0]);
      if TooBigFirst(cfg, raw) {
        var i :| 0 <= i < |raw| && !TextFits(cfg, raw[i]) && NonEmpty(raw[..i]);
        if i > 0 {
          assert raw[..i][0].size > 0;
          assert rest[..i - 1] == raw[..i][1..];
          assert !TextFits(cfg, rest[i - 1]) && NonEmpty(rest[..i - 1]);
        }
      }
      if raw[0].size > 0 && TooBigFirst(cfg, rest) {
        var i :| 0 <= i < |rest| && !TextFits(cfg, rest[i]) && NonEmpty(rest[..i]);
        assert raw[..i + 1] == [raw[0]] + rest[..i];
        assert !TextFits(cfg, raw[i + 1]) && NonEmpty(raw[..i + 1]);
      }
      if !TextFits(cfg, raw[0]) {
        assert raw[..0] == [];
        assert !TextFits(cfg, raw[0]) && NonEmpty(raw[..0]);
      }
    }
  }

  lemma {:induction false} FateCut(cfg: Config, raw: seq<Section>)
    ensures Fate(cfg, raw) == Cut <==>
            raw == [] || (AllTextFits(cfg, raw) && !NonEmpty(raw) && !EmptyBeforeLast(raw))
  {
    hide PadText, TextFits;
    if raw != [] {
      var rest := raw[1..];
      FateCut(cfg, rest);
      assert forall i | 0 <= i < |rest| :: rest[i] == raw[i + 1];
      assert TextFits(cfg, raw[0]) && AllTextFits(cfg, rest) <==> AllTextFits(cfg, raw);
      assert raw[0].size > 0 && NonEmpty(rest) <==> NonEmpty(raw);
      assert (raw[0].size == 0 && |raw| > 1) || EmptyBeforeLast(rest) <==> EmptyBeforeLast(raw);
      assert raw[0].size == 0 ==> TextFits(cfg, raw[0]) by { EmptyFits(cfg, raw[0]); }
    }
  }

  // Whole requests

  function Request(h: Header, buf: seq<byte>): seq<byte>
    requires |h.url| < 0x1_0000
  {
    FixedPart(h) + h.url + buf
  }

  /** The message for header `h` and section list `ss`. */
  function Intended(h: Header, ss: seq<Section>): Message
    requires |h.url| < 0x1_0000
  {
    Begun(Described(h).(url := h.url), false).(sections := ss)
  }

  predicate IsAot(buf: seq<byte>) {
    8 <= |buf| && buf[..8] == FileHead(false)
  }

  /** A request for an AOT file is read by the file's sections. */
  lemma RequestRead(cfg: Config, h: Header, buf: seq<byte>)
    requires |h.url| < 0x1_0000 && IsAot(buf)
    ensures var pre := FixedPart(h) + h.url;
            Read(cfg, Request(h, buf)) ==
            if h.url == [] then Astray
            else Onto(Intended(h, []), AotSections(cfg, Request(h, buf), |pre|, |pre| + 8))
  {
    hide AotSections, FixedPart, FileRead;
    HeaderBack(h, buf);
    assert buf == FileHead(false) + buf[8..];
    if h.url != [] {
      FileBack(cfg, Described(h).(url := h.url), FixedPart(h) + h.url, false, buf[8..]);
    }
  }

  /** The same, for a file that the batch parser can take apart. */
  lemma FileFate(cfg: Config, h: Header, buf: seq<byte>, raw: seq<Section>)
    requires |h.url| < 0x1_0000 && IsAot(buf) && RawSections(buf, 8) == Some(raw)
    ensures Read(cfg, Request(h, buf)) == if h.url == [] then Astray else Onto(Intended(h, []), Fate(cfg, raw))
  {
    hide AotSections, FixedPart, Read, RawSections, Fate, FileHead;
    RequestRead(cfg, h, buf);
    RawRead(cfg, FixedPart(h) + h.url, buf, 8, raw);
  }

  /**
   The receiver refines `create_sections`: on every file without native symbols that the batch parser accepts, it hands
   over exactly the batch list, on the last byte, if and only if the URL and all sections are non-empty. It stores a
   byte outside its block if and only if the URL or a section other than the last is empty; in the remaining case it is
   left inside the request.
   */
  lemma StreamRefinesBatch(cfg: Config, c: Ctx, h: Header, buf: seq<byte>, list: seq<Section>)
    requires Idle(c) && cfg.postOk && |h.url| < 0x1_0000 && IsAot(buf)
    requires CreatedSections(cfg, buf) == Some(list) && NativeSymbols(buf, 8) == Some(0)
    ensures Wf(c)
    ensures HandedOnLastByte(cfg, c, Request(h, buf), Intended(h, list)) <==> h.url != [] && NonEmpty(list)
    ensures LeavesBlock(cfg, c, Request(h, buf)) <==> h.url == [] || EmptyBeforeLast(list)
    ensures Unfinished(cfg, c, Request(h, buf)) <==> h.url != [] && !NonEmpty(list) && !EmptyBeforeLast(list)
  {
    hide Step, Feed, FixedPart, Read, RawSections, Fate, NativeSymbols, FileHead, TextFits, PadText,
         HandedOnLastByte, LeavesBlock, Unfinished;
    var raw := RawSections(buf, 8).value;
    FileFate(cfg, h, buf, raw);
    ReadExactly(cfg, c, Request(h, buf));
    FateWhole(cfg, raw);
    FateAstray(cfg, raw);
    FateRefused(cfg, raw);
    SameEmpty(cfg, raw);
    assert [] + list == list;
  }

  /** Placing sections neither empties nor fills one. */
  lemma SameEmpty(cfg: Config, raw: seq<Section>)
    requires AllTextFits(cfg, raw)
    ensures var list := AllPlaced(cfg, 0, raw);
            && (NonEmpty(list) <==> NonEmpty(raw)) && (EmptyBeforeLast(list) <==> StraysFirst(cfg, raw))
            && !TooBigFirst(cfg, raw)
  {
    hide PaddedTextSize32, TextFits;
    var list := AllPlaced(cfg, 0, raw);
    assert forall i | 0 <= i < |raw| :: list[i] == Placed(cfg, 0, raw[i]);
    assert forall i | 0 <= i < |raw| :: list[i].size > 0 <==> raw[i].size > 0;
    assert forall i | 0 <= i < |raw| :: AllTextFits(cfg, raw[..i]);
  }

  /**
   With native symbols the loader leaves text as it is, of any size. The receiver pads it, and so hands over the batch
   list if and only if moreover padding fits and changes nothing; it drops the request when it meets text too big to
   pad before an empty section.
   */
  lemma NativeSymbolsCase(cfg: Config, c: Ctx, h: Header, buf: seq<byte>, list: seq<Section>)
    requires Idle(c) && cfg.postOk && |h.url| < 0x1_0000 && IsAot(buf)
    requires CreatedSections(cfg, buf) == Some(list) && NativeSymbols(buf, 8) != Some(0)
    ensures Wf(c)
    ensures HandedOnLastByte(cfg, c, Request(h, buf), Intended(h, list)) <==>
            && h.url != [] && NonEmpty(list) && AllTextFits(cfg, list)
            && forall i | 0 <= i < |list| :: PadText(cfg, list[i]) == list[i]
    ensures LeavesBlock(cfg, c, Request(h, buf)) <==> h.url == [] || StraysFirst(cfg, list)
    ensures Dropped(cfg, c, Request(h, buf)) <==> h.url != [] && TooBigFirst(cfg, list)
    ensures Unfinished(cfg, c, Request(h, buf)) <==>
            h.url != [] && AllTextFits(cfg, list) && !NonEmpty(list) && !EmptyBeforeLast(list)
  {
    hide Step, Feed, FixedPart, Read, RawSections, Fate, NativeSymbols, FileHead, TextFits, PadText,
         HandedOnLastByte, LeavesBlock, Unfinished, Dropped, StraysFirst, TooBigFirst;
    var raw := RawSections(buf, 8).value;
    assert list == raw by { PlacedAsIs(cfg, NativeSymbols(buf, 8).value, raw); }
    FileFate(cfg, h, buf, raw);
    ReadExactly(cfg, c, Request(h, buf));
    FateWhole(cfg, raw);
    FateAstray(cfg, raw);
    FateRefused(cfg, raw);
    FateCut(cfg, raw);
    if NonEmpty(list) {
      PaddedSame(cfg, h, list);
    }
  }

  lemma PlacedAsIs(cfg: Config, native: uint32, raw: seq<Section>)
    requires native != 0
    ensures AllPlaced(cfg, native, raw) == raw
  {
  }

  lemma PaddedSame(cfg: Config, h: Header, list: seq<Section>)
    requires |h.url| < 0x1_0000 && NonEmpty(list)
    ensures Onto(Intended(h, []), Whole(AllPlaced(cfg, 0, list))) == Whole(Intended(h, list))
            <==> forall i | 0 <= i < |list| :: PadText(cfg, list[i]) == list[i]
  {
    hide PadText, Intended, AllPlaced;
    var padded := AllPlaced(cfg, 0, list);
    OntoIntended(h, padded, list);
    if i: nat :| i < |list| && PadText(cfg, list[i]) != list[i] {
      assert padded[i] != list[i];
    } else {
      assert padded == list;
    }
  }

  lemma OntoIntended(h: Header, ss: seq<Section>, list: seq<Section>)
    requires |h.url| < 0x1_0000
    ensures Onto(Intended(h, []), Whole(ss)) == Whole(Intended(h, list)) <==> ss == list
  {
    hide Described, Begun;
    assert [] + ss == ss;
    assert Intended(h, list).sections == list;
  }

  // The other direction

  predicate AllLoadable(ss: seq<Section>) {
    forall i | 0 <= i < |ss| :: LoadableKind(ss[i].kind)
  }

  lemma LoadableCons(ss: seq<Section>)
    requires ss != []
    ensures AllLoadable(ss) <==> LoadableKind(ss[0].kind) && AllLoadable(ss[1..])
  {
    hide LoadableKind;
    assert forall i | 0 <= i < |ss| - 1 :: ss[1..][i] == ss[i + 1];
  }

  /** A record that is part of a whole reading. */
  lemma WholeRecord(cfg: Config, pre: seq<byte>, buf: seq<byte>, p: nat)
    requires AotSections(cfg, pre + buf, |pre|, |pre| + p).Whole?
    ensures p < |buf| && RecordAt(buf, Align4(p)) && KnownAotSection(U32At(buf, Align4(p)))
  {
    hide FromLE32, KnownAotSection, PadText, TextFits;
    var bs, q := pre + buf, Align4(p);
    var at := |pre| + q;
    assert bs[at..at + 4] == buf[q..q + 4] && bs[at + 4..at + 8] == buf[q + 4..q + 8];
  }

  /** Whatever the receiver makes of a file, the batch parser finds the same sections, if it knows all their kinds. */
  lemma {:induction false} RawFromRead(cfg: Config, pre: seq<byte>, buf: seq<byte>, p: nat, ss: seq<Section>)
    requires AotSections(cfg, pre + buf, |pre|, |pre| + p) == Whole(ss)
    ensures ss != [] && (RawSections(buf, p).Some? <==> AllLoadable(ss))
    ensures RawSections(buf, p).Some? ==>
              AllPlaced(cfg, 0, RawSections(buf, p).value) == ss && AllTextFits(cfg, RawSections(buf, p).value)
    decreases |buf| - p
  {
    hide FromLE32, KnownAotSection, PadText, TextFits, AotSections, LoadableKind, RawSections, AllPlaced;
    WholeRecord(cfg, pre, buf, p);
    FromAligned(cfg, pre, buf, p);
    var q := Align4(p);
    var end := RecordEnd(buf, q);
    var s := Section(U32At(buf, q), U32At(buf, q + 4), buf[q + 8..end]);
    var later := RawSections(buf, end);
    PadKeepsKind(cfg, s);
    if end == |buf| {
      RawAtEnd(cfg, buf);
    } else {
      RawFromRead(cfg, pre, buf, end, ss[1..]);
    }
    LoadableCons(ss);
    RawStep(buf, p);
    if later.Some? {
      PlacedCons(cfg, s, later.value);
    }
  }

  lemma PadKeepsKind(cfg: Config, s: Section)
    ensures PadText(cfg, s).kind == s.kind
  {
  }

  lemma RawAtEnd(cfg: Config, buf: seq<byte>)
    ensures RawSections(buf, |buf|) == Some([]) && AllPlaced(cfg, 0, []) == [] && AllTextFits(cfg, [])
  {
  }

  lemma PlacedCons(cfg: Config, s: Section, rest: seq<Section>)
    requires s.size > 0
    ensures AllPlaced(cfg, 0, [s] + rest) == [PadText(cfg, s)] + AllPlaced(cfg, 0, rest)
    ensures TextFits(cfg, s) && AllTextFits(cfg, rest) ==> AllTextFits(cfg, [s] + rest)
  {
    hide PadText, TextFits;
    var all := [s] + rest;
    assert forall i | 0 <= i < |rest| :: all[i + 1] == rest[i];
  }

  lemma RawStep(buf: seq<byte>, p: nat)
    requires p < |buf| && RecordAt(buf, Align4(p))
    ensures var q := Align4(p); var end := RecordEnd(buf, q);
            RawSections(buf, p) ==
            if !LoadableKind(U32At(buf, q)) then None
            else Before([Section(U32At(buf, q), U32At(buf, q + 4), buf[q + 8..end])], RawSections(buf, end))
  {
    hide FromLE32, LoadableKind;
  }

  /** The last section is a custom one too short for a sub-type and a symbol count. */
  predicate EndsShort(ss: seq<Section>) {
    ss != [] && ss[|ss| - 1].kind == AOT_CUSTOM && ss[|ss| - 1].size < 8
  }

  /** The scan for native symbols fails on a file that is read whole only behind its last section. */
  lemma {:induction false} ScanFails(cfg: Config, pre: seq<byte>, buf: seq<byte>, p: nat, ss: seq<Section>)
    requires AotSections(cfg, pre + buf, |pre|, |pre| + p) == Whole(ss) && NativeSymbols(buf, p) == None
    ensures EndsShort(ss)
    decreases |buf| - p
  {
    hide FromLE32, KnownAotSection, PaddedTextSize32, TextFits, AotSections;
    WholeRecord(cfg, pre, buf, p);
    FromAligned(cfg, pre, buf, p);
    var end := RecordEnd(buf, Align4(p));
    if end < |buf| && NativeSymbols(buf, end) == None {
      ScanFails(cfg, pre, buf, end, ss[1..]);
    } else if end < |buf| {
      RoomBehind(cfg, pre, buf, end);
    }
  }

  /** A section that is not the last has eight bytes behind it. */
  lemma RoomBehind(cfg: Config, pre: seq<byte>, buf: seq<byte>, p: nat)
    requires AotSections(cfg, pre + buf, |pre|, |pre| + p).Whole?
    ensures p + 8 <= |buf|
  {
    hide FromLE32, KnownAotSection, AotSections;
    WholeRecord(cfg, pre, buf, p);
  }

  /**
   What the receiver hands over is what the batch parser would have built. A file whose request is handed over is
   accepted by `create_sections` if and only if the scan for native symbols does not fail and no section kind has its
   top bit set, which only the receiver takes for a small number. The message then holds the sections of the file, text
   padded, which is the batch list itself when there are no native symbols.
   */
  lemma HandedIsBatch(cfg: Config, c: Ctx, h: Header, buf: seq<byte>, m: Message)
    requires Idle(c) && cfg.postOk && |h.url| < 0x1_0000 && IsAot(buf)
    requires Wf(c) && HandedOnLastByte(cfg, c, Request(h, buf), m)
    ensures m == Intended(h, m.sections)
    ensures CreatedSections(cfg, buf).Some? <==>
            NativeSymbols(buf, 8).Some? && forall i | 0 <= i < |m.sections| :: m.sections[i].kind < 0x8000_0000
    ensures CreatedSections(cfg, buf).Some? ==>
              && RawSections(buf, 8).Some? && m.sections == AllPlaced(cfg, 0, RawSections(buf, 8).value)
              && (NativeSymbols(buf, 8) == Some(0) ==> CreatedSections(cfg, buf) == Some(m.sections))
    ensures NativeSymbols(buf, 8) == None ==> EndsShort(m.sections)
  {
    hide Step, Feed, FixedPart, Read, RawSections, NativeSymbols, FileHead, TextFits, PadText, HandedOnLastByte,
         AotSections, LeavesBlock, Unfinished, Dropped, Intended, Onto, EndsShort;
    var pre := FixedPart(h) + h.url;
    ReadExactly(cfg, c, Request(h, buf));
    RequestRead(cfg, h, buf);
    OntoWhole(h, AotSections(cfg, Request(h, buf), |pre|, |pre| + 8), m);
    RawFromRead(cfg, pre, buf, 8, m.sections);
    KindsKnown(cfg, pre, buf, 8, m.sections);
    if NativeSymbols(buf, 8) == None {
      ScanFails(cfg, pre, buf, 8, m.sections);
    }
  }

  lemma OntoWhole(h: Header, r: Reading<seq<Section>>, m: Message)
    requires |h.url| < 0x1_0000 && Onto(Intended(h, []), r) == Whole(m)
    ensures r == Whole(m.sections) && m == Intended(h, m.sections)
  {
    hide Described, Begun;
    assert [] + r.value == r.value;
  }

  lemma {:induction false} KindsKnown(cfg: Config, pre: seq<byte>, buf: seq<byte>, p: nat, ss: seq<Section>)
    requires AotSections(cfg, pre + buf, |pre|, |pre| + p) == Whole(ss)
    ensures forall i | 0 <= i < |ss| :: LoadableKind(ss[i].kind) <==> ss[i].kind < 0x8000_0000
    decreases |buf| - p
  {
    hide FromLE32, PaddedTextSize32, TextFits, AotSections;
    WholeRecord(cfg, pre, buf, p);
    FromAligned(cfg, pre, buf, p);
    var end := RecordEnd(buf, Align4(p));
    if end < |buf| {
      KindsKnown(cfg, pre, buf, end, ss[1..]);
      assert forall i | 0 <= i < |ss[1..]| :: ss[1..][i] == ss[i + 1];
    }
  }

  // Inputs

  /** A file of one section of one byte. */
  predicate OneByteFile(buf: seq<byte>, kind: uint32) {
    IsAot(buf) && buf[8..] == LE32(kind) + [1, 0, 0, 0, 7]
  }

  lemma OneByteRecord(buf: seq<byte>, kind: uint32)
    requires OneByteFile(buf, kind)
    ensures |buf| == 17 && RecordAt(buf, 8) && RecordEnd(buf, 8) == 17
    ensures U32At(buf, 8) == kind && U32At(buf, 12) == 1 && buf[16..17] == [7]
  {
    hide LE32;
    LE32Inverse(kind);
    var t := buf[8..];
    assert buf[8..12] == t[..4] == LE32(kind) && buf[12..16] == t[4..8] == [1, 0, 0, 0] && buf[16..17] == t[8..];
  }

  /** The receiver takes such a file whole. */
  lemma OneByteRead(cfg: Config, h: Header, buf: seq<byte>, kind: uint32)
    requires 0 < |h.url| < 0x1_0000 && OneByteFile(buf, kind) && KnownAotSection(kind) && kind != AOT_TEXT
    ensures Read(cfg, Request(h, buf)) == Whole(Intended(h, [Section(kind, 1, [7])]))
  {
    hide FixedPart, Read, AotSections, FileHead, Intended, Onto, U32At, KnownAotSection, LE32;
    var pre, s := FixedPart(h) + h.url, Section(kind, 1, [7]);
    OneByteRecord(buf, kind);
    RequestRead(cfg, h, buf);
    assert Align4(8) == 8;
    FromAligned(cfg, pre, buf, 8);
    OntoIntended(h, [s], [s]);
  }

  /** A file for the receiver only: its one section has the top bit of its kind set. */
  lemma TopBitKind(cfg: Config, h: Header, buf: seq<byte>)
    requires 0 < |h.url| < 0x1_0000 && OneByteFile(buf, 0x8000_0000)
    ensures Read(cfg, Request(h, buf)) == Whole(Intended(h, [Section(0x8000_0000, 1, [7])]))
    ensures CreatedSections(cfg, buf) == None
  {
    hide Read, NativeSymbols, OneByteFile, U32At;
    OneByteRead(cfg, h, buf, 0x8000_0000);
    OneByteRecord(buf, 0x8000_0000);
    assert RawSections(buf, 8) == None;
  }

  /** Another one: its last section is a custom one without room for a sub-type. */
  lemma ShortCustom(cfg: Config, h: Header, buf: seq<byte>)
    requires 0 < |h.url| < 0x1_0000 && OneByteFile(buf, AOT_CUSTOM)
    ensures Read(cfg, Request(h, buf)) == Whole(Intended(h, [Section(AOT_CUSTOM, 1, [7])]))
    ensures CreatedSections(cfg, buf) == None
  {
    hide Read, RawSections, OneByteFile, U32At;
    OneByteRead(cfg, h, buf, AOT_CUSTOM);
    OneByteRecord(buf, AOT_CUSTOM);
    assert NativeSymbols(buf, 8) == None;
  }

  /** Five native symbols and one byte of text. */
  predicate NativeFile(buf: seq<byte>) {
    && |buf| == 33 && IsAot(buf)
    && buf[8..12] == [100, 0, 0, 0] && buf[12..16] == [8, 0, 0, 0]
    && buf[16..20] == [1, 0, 0, 0] && buf[20..24] == [5, 0, 0, 0]
    && buf[24..28] == [2, 0, 0, 0] && buf[28..32] == [1, 0, 0, 0] && buf[32..] == [7]
  }

  lemma NativeRecords(buf: seq<byte>)
    requires NativeFile(buf)
    ensures |buf| == 33 && RecordAt(buf, 8) && U32At(buf, 8) == AOT_CUSTOM && U32At(buf, 12) == 8
    ensures U32At(buf, 16) == 1 && U32At(buf, 20) == 5 && buf[16..24] == [1, 0, 0, 0, 5, 0, 0, 0]
    ensures RecordAt(buf, 24) && U32At(buf, 24) == AOT_TEXT && U32At(buf, 28) == 1 && buf[32..33] == [7]
  {
    assert buf[16..24] == buf[16..20] + buf[20..24] && buf[32..33] == buf[32..];
  }

  lemma NativeParsed(cfg: Config, buf: seq<byte>)
    requires NativeFile(buf)
    ensures var list := [Section(AOT_CUSTOM, 8, [1, 0, 0, 0, 5, 0, 0, 0]), Section(AOT_TEXT, 1, [7])];
            RawSections(buf, 8) == Some(list) && CreatedSections(cfg, buf) == Some(list)
  {
    hide NativeFile, U32At, PadText;
    NativeRecords(buf);
    var native, text := Section(AOT_CUSTOM, 8, [1, 0, 0, 0, 5, 0, 0, 0]), Section(AOT_TEXT, 1, [7]);
    assert NativeSymbols(buf, 8) == Some(5);
    assert Align4(8) == 8 && Align4(24) == 24;
    RawStep(buf, 8);
    RawStep(buf, 24);
    hide RawSections;
    RawAtEnd(cfg, buf);
    assert [text] + [] == [text] && [native] + [text] == [native, text];
    PlacedAsIs(cfg, 5, [native, text]);
  }

  /** A file with native symbols whose text is padded: the batch list is never what it is read as. */
  lemma PaddedText(cfg: Config, h: Header, buf: seq<byte>)
    requires 0 < |h.url| < 0x1_0000 && NativeFile(buf)
    ensures var created := CreatedSections(cfg, buf);
            created.Some? && Read(cfg, Request(h, buf)) != Whole(Intended(h, created.value))
  {
    hide Read, FixedPart, NativeFile, RawSections, CreatedSections, Fate, AllPlaced, Intended, Onto;
    NativeParsed(cfg, buf);
    assert IsAot(buf) by { NativeIsAot(buf); }
    var list := CreatedSections(cfg, buf).value;
    FileFate(cfg, h, buf, list);
    FateWhole(cfg, list);
    if Fate(cfg, list).Whole? {
      PadsOneByte(cfg, list[1]);
      assert AllPlaced(cfg, 0, list)[1] == Placed(cfg, 0, list[1]);
      OntoIntended(h, AllPlaced(cfg, 0, list), list);
    } else {
      assert !Onto(Intended(h, []), Fate(cfg, list)).Whole? by { OntoFails(Intended(h, []), Fate(cfg, list)); }
    }
  }

  lemma NativeIsAot(buf: seq<byte>)
    requires NativeFile(buf)
    ensures IsAot(buf)
  {
  }

  lemma PadsOneByte(cfg: Config, s: Section)
    requires s.kind == AOT_TEXT && s.size == 1 && TextFits(cfg, s)
    ensures PadText(cfg, s) != s
  {
    SmallPaddedSize(cfg, s.size);
  }

  lemma OntoFails(m: Message, r: Reading<seq<Section>>)
    requires !r.Whole?
    ensures !Onto(m, r).Whole?
  {
  }
}
