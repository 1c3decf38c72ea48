/**
 Bytecode install requests: every message whose URL and section bodies are non-empty is rebuilt exactly and handed
 over on its last byte, whichever of the valid LEB128 encodings its section sizes use (section 5.2.2 of the
 WebAssembly Core Specification 1.0); and only those messages are.
 */
module Bytecode {
  import opened Bytes
  import opened Install
  import opened Reception
  import opened Payloads

  /** An unsigned LEB128 encoding of `v` in exactly `n` bytes. */
  function Leb(v: nat, n: nat): (s: seq<byte>)
    requires n >= 1 && v < Pow128(n)
    ensures |s| == n
    decreases n
  {
    if n == 1 then [v] else [128 + v % 128] + Leb(v / 128, n - 1)
  }

  datatype SentSection = SentSection(kind: byte, lebLen: nat, body: seq<byte>)

  predicate Sendable(cfg: Config, s: SentSection) {
    s.kind <= MaxSectionType(cfg) && 1 <= s.lebLen <= 5 && |s.body| < Pow128(s.lebLen) && |s.body| < 0x1_0000_0000
  }

  predicate AllSendable(cfg: Config, ss: seq<SentSection>) {
    forall i | 0 <= i < |ss| :: Sendable(cfg, ss[i])
  }

  function SectionHead(s: SentSection): (r: seq<byte>)
    requires s.lebLen >= 1 && |s.body| < Pow128(s.lebLen)
    ensures |r| == 1 + s.lebLen
  {
    [s.kind] + Leb(|s.body|, s.lebLen)
  }

  function SectionsImage(cfg: Config, ss: seq<SentSection>): seq<byte>
    requires AllSendable(cfg, ss)
  {
    if ss == [] then [] else SectionHead(ss[0]) + ss[0].body + SectionsImage(cfg, ss[1..])
  }

  function Received(s: SentSection): Section
    requires |s.body| < 0x1_0000_0000
  {
    Section(s.kind, |s.body|, s.body)
  }

  function AllReceived(cfg: Config, ss: seq<SentSection>): (r: seq<Section>)
    requires AllSendable(cfg, ss)
    ensures |r| == |ss| && forall i | 0 <= i < |ss| :: r[i] == Received(ss[i])
  {
    if ss == [] then [] else [Received(ss[0])] + AllReceived(cfg, ss[1..])
  }

  // Section sizes

  lemma {:induction false} LebStandsFor(v: nat, n: nat)
    requires n >= 1 && v < Pow128(n)
    ensures LebValue(Leb(v, n)) == v
    decreases n
  {
    if n > 1 {
      LebStandsFor(v / 128, n - 1);
      assert Leb(v, n)[1..] == Leb(v / 128, n - 1);
    } else {
      assert Leb(v, n)[1..] == [];
    }
  }

  /** An encoding is read to its end. */
  lemma {:induction false} LebEnds(bs: seq<byte>, q: nat, k: nat, acc: uint32, v: nat, n: nat)
    requires n >= 1 && v < Pow128(n) && k + n <= 5 && acc < Pow128(k)
    requires q + n <= |bs| && bs[q..q + n] == Leb(v, n)
    ensures SizeAt(bs, q, k, acc).Whole? && SizeAt(bs, q, k, acc).value.1 == q + n
    decreases n
  {
    hide WithGroup;
    assert bs[q] == bs[q..q + n][0];
    if n > 1 {
      assert bs[q + 1..q + n] == bs[q..q + n][1..] == Leb(v / 128, n - 1);
      LebEnds(bs, q + 1, k + 1, WithGroup(acc, k, bs[q]), v / 128, n - 1);
    }
  }

  /** Any encoding of a size in one to five bytes, padded or not, is read as that size. */
  lemma SizeRead(bs: seq<byte>, q: nat, v: uint32, n: nat)
    requires 1 <= n <= 5 && v < Pow128(n) && q + n <= |bs| && bs[q..q + n] == Leb(v, n)
    ensures SizeAt(bs, q, 0, 0) == Whole((v, q + n))
  {
    hide SizeAt, Leb, Pow128;
    Pow128Values();
    LebEnds(bs, q, 0, 0, v, n);
    SizeIsValue(bs, q, 0, 0);
    LebStandsFor(v, n);
  }

  // Sections

  predicate NonEmpty(ss: seq<SentSection>) {
    forall i | 0 <= i < |ss| :: ss[i].body != []
  }

  /** Some section other than the last is empty. */
  predicate EmptyBeforeLast(ss: seq<SentSection>) {
    exists i | 0 <= i < |ss| - 1 :: ss[i].body == []
  }

  /** What a list of sections is read as. */
  function Listed(cfg: Config, ss: seq<SentSection>): Reading<seq<Section>>
    requires AllSendable(cfg, ss)
  {
    if ss != [] && NonEmpty(ss) then Whole(AllReceived(cfg, ss)) else if EmptyBeforeLast(ss) then Astray else Cut
  }

  lemma ListedCons(cfg: Config, ss: seq<SentSection>)
    requires AllSendable(cfg, ss) && |ss| > 1 && ss[0].body != []
    ensures Listed(cfg, ss) == Prepended(Received(ss[0]), Listed(cfg, ss[1..]))
  {
    var rest := ss[1..];
    assert forall i | 0 <= i < |rest| :: rest[i] == ss[i + 1];
    assert NonEmpty(ss) <==> NonEmpty(rest);
    if EmptyBeforeLast(ss) {
      var i :| 0 <= i < |ss| - 1 && ss[i].body == [];
      assert rest[i - 1].body == [];
    }
  }

  lemma AtLeastTwo(cfg: Config, ss: seq<SentSection>)
    requires AllSendable(cfg, ss) && ss != []
    ensures |SectionsImage(cfg, ss)| >= 2
  {
  }

  lemma Pieces(pre: seq<byte>, kind: byte, leb: seq<byte>, body: seq<byte>, rest: seq<byte>)
    ensures var bs, q := pre + ([kind] + leb + body + rest), |pre| + 1 + |leb|;
            && q + |body| <= |bs| && bs[|pre|] == kind && bs[|pre| + 1..q] == leb && bs[q..q + |body|] == body
            && bs == pre + ([kind] + leb + body) + rest
  {
  }

  /** The pieces of a section image behind `pre`. */
  lemma FirstSection(cfg: Config, pre: seq<byte>, ss: seq<SentSection>)
    requires AllSendable(cfg, ss) && ss != []
    ensures var s, bs := ss[0], pre + SectionsImage(cfg, ss);
            var q := |pre| + 1 + s.lebLen;
            && q + |s.body| <= |bs| && bs[|pre|] == s.kind && SizeAt(bs, |pre| + 1, 0, 0) == Whole((|s.body|, q))
            && bs[q..q + |s.body|] == s.body
            && bs == pre + (SectionHead(s) + s.body) + SectionsImage(cfg, ss[1..])
  {
    hide SizeAt, Leb, Pow128;
    var s, bs := ss[0], pre + SectionsImage(cfg, ss);
    Pieces(pre, s.kind, Leb(|s.body|, s.lebLen), s.body, SectionsImage(cfg, ss[1..]));
    SizeRead(bs, |pre| + 1, |s.body|, s.lebLen);
  }

  /** The image of a list of sections is read as that list. */
  lemma {:induction false} ImageRead(cfg: Config, pre: seq<byte>, ss: seq<SentSection>)
    requires AllSendable(cfg, ss)
    ensures WasmSections(cfg, pre + SectionsImage(cfg, ss), |pre|) == Listed(cfg, ss)
    decreases ss
  {
    hide SizeAt, SectionHead, SectionsImage, Pow128, AllReceived, Listed;
    if ss == [] {
      NothingListed(cfg, pre);
    } else {
      var s, bs := ss[0], pre + SectionsImage(cfg, ss);
      var one := SectionHead(s) + s.body;
      FirstSection(cfg, pre, ss);
      if |ss| == 1 {
        OneListed(cfg, ss);
      } else {
        AtLeastTwo(cfg, ss[1..]);
        if s.body == [] {
          EmptyListed(cfg, ss);
        } else {
          ListedCons(cfg, ss);
          ImageRead(cfg, pre + one, ss[1..]);
        }
      }
    }
  }

  lemma NothingListed(cfg: Config, pre: seq<byte>)
    ensures Listed(cfg, []) == Cut && SectionsImage(cfg, []) == [] && pre + [] == pre
  {
  }

  lemma OneListed(cfg: Config, ss: seq<SentSection>)
    requires AllSendable(cfg, ss) && |ss| == 1
    ensures Listed(cfg, ss) == (if ss[0].body == [] then Cut else Whole([Received(ss[0])]))
    ensures SectionsImage(cfg, ss[1..]) == []
  {
    assert ss[1..] == [] && AllReceived(cfg, ss) == [Received(ss[0])];
  }

  lemma EmptyListed(cfg: Config, ss: seq<SentSection>)
    requires AllSendable(cfg, ss) && |ss| > 1 && ss[0].body == []
    ensures Listed(cfg, ss) == Astray
  {
  }

  // Whole requests

  function Request(cfg: Config, h: Header, ss: seq<SentSection>): seq<byte>
    requires |h.url| < 0x1_0000 && AllSendable(cfg, ss)
  {
    FixedPart(h) + h.url + FileHead(true) + SectionsImage(cfg, ss)
  }

  /** The message the request stands for. */
  function Intended(cfg: Config, h: Header, ss: seq<SentSection>): Message
    requires |h.url| < 0x1_0000 && AllSendable(cfg, ss)
  {
    Begun(Described(h).(url := h.url), true).(sections := AllReceived(cfg, ss))
  }

  /** A request is read as the message it stands for, if its URL and its sections allow it. */
  lemma RequestRead(cfg: Config, h: Header, ss: seq<SentSection>)
    requires |h.url| < 0x1_0000 && AllSendable(cfg, ss)
    ensures Read(cfg, Request(cfg, h, ss)) ==
            if h.url == [] then Astray
            else if ss != [] && NonEmpty(ss) then Whole(Intended(cfg, h, ss))
            else if EmptyBeforeLast(ss) then Astray
            else Cut
  {
    hide SectionsImage, WasmSections, FixedPart, FileRead, AllReceived, NonEmpty, EmptyBeforeLast;
    var image := SectionsImage(cfg, ss);
    HeaderBack(h, FileHead(true) + image);
    assert Request(cfg, h, ss) == FixedPart(h) + h.url + (FileHead(true) + image);
    if h.url != [] {
      FileBack(cfg, Described(h).(url := h.url), FixedPart(h) + h.url, true, image);
      ImageRead(cfg, FixedPart(h) + h.url + FileHead(true), ss);
      assert [] + AllReceived(cfg, ss) == AllReceived(cfg, ss);
    }
  }

  /**
   The exact conditions for every sendable request. It is rebuilt and handed over if and only if its URL is non-empty
   and it has sections, all of them non-empty. A byte is stored outside its block if and only if the URL is empty or a
   section other than the last is. In the remaining case the receiver is left inside the request.
   */
  lemma RebuiltExactlyWhen(cfg: Config, c: Ctx, h: Header, ss: seq<SentSection>)
    requires Idle(c) && cfg.postOk && |h.url| < 0x1_0000 && AllSendable(cfg, ss)
    ensures Wf(c)
    ensures HandedOnLastByte(cfg, c, Request(cfg, h, ss), Intended(cfg, h, ss)) <==>
            h.url != [] && ss != [] && NonEmpty(ss)
    ensures LeavesBlock(cfg, c, Request(cfg, h, ss)) <==> h.url == [] || EmptyBeforeLast(ss)
    ensures Unfinished(cfg, c, Request(cfg, h, ss)) <==>
            h.url != [] && (ss == [] || !NonEmpty(ss)) && !EmptyBeforeLast(ss)
  {
    hide Step, Feed, FixedPart, SectionsImage, Read, HandedOnLastByte, LeavesBlock, Unfinished;
    RequestRead(cfg, h, ss);
    ReadExactly(cfg, c, Request(cfg, h, ss));
  }

  /** A request with one section: its id, its size in one to five bytes, its body. */
  function OneSection(h: Header, id: byte, body: seq<byte>, n: nat): seq<byte>
    requires |h.url| < 0x1_0000 && n >= 1 && |body| < Pow128(n)
  {
    FixedPart(h) + h.url + FileHead(true) + ([id] + Leb(|body|, n) + body)
  }

  /** A section id beyond the last one is refused. */
  lemma UnknownId(cfg: Config, h: Header, id: byte, body: seq<byte>, n: nat)
    requires 0 < |h.url| < 0x1_0000 && n >= 1 && |body| < Pow128(n) && id > MaxSectionType(cfg)
    ensures Read(cfg, OneSection(h, id, body, n)) == Refused
  {
    hide FixedPart, FileRead, Leb, Pow128;
    var image := [id] + Leb(|body|, n) + body;
    var pre := FixedPart(h) + h.url;
    HeaderBack(h, FileHead(true) + image);
    FileBack(cfg, Described(h).(url := h.url), pre, true, image);
    assert OneSection(h, id, body, n) == pre + (FileHead(true) + image);
    assert (pre + (FileHead(true) + image))[|pre| + 8] == id;
  }

  lemma KnownId(cfg: Config, h: Header, id: byte, body: seq<byte>, n: nat)
    requires 0 < |h.url| < 0x1_0000 && 1 <= n <= 5 && 0 < |body| < Pow128(n) && |body| < 0x1_0000_0000
    requires id <= MaxSectionType(cfg)
    ensures Read(cfg, OneSection(h, id, body, n)) ==
            Whole(Begun(Described(h).(url := h.url), true).(sections := [Section(id, |body|, body)]))
  {
    hide FixedPart, Read, Leb, Pow128, Begun;
    var ss := [SentSection(id, n, body)];
    assert AllSendable(cfg, ss) && NonEmpty(ss);
    RequestRead(cfg, h, ss);
    assert ss[1..] == [] && SectionsImage(cfg, []) == [];
    assert SectionsImage(cfg, ss) == [id] + Leb(|body|, n) + body;
    assert AllReceived(cfg, ss) == [Section(id, |body|, body)];
  }

  /**
   Which section ids are received: those from 0 to 11, and 12 in a build with bulk memory. Any other one makes the
   receiver drop the request.
   */
  lemma IdsReceived(cfg: Config, c: Ctx, h: Header, id: byte, body: seq<byte>, n: nat)
    requires Idle(c) && cfg.postOk && 0 < |h.url| < 0x1_0000 && 1 <= n <= 5
    requires 0 < |body| < Pow128(n) && |body| < 0x1_0000_0000
    ensures Wf(c)
    ensures (exists m: Message :: m.sections == [Section(id, |body|, body)]
                         && HandedOnLastByte(cfg, c, OneSection(h, id, body, n), m)) <==>
            id <= 11 || (id == 12 && cfg.bulkMemory)
    ensures Dropped(cfg, c, OneSection(h, id, body, n)) <==> !(id <= 11 || (id == 12 && cfg.bulkMemory))
  {
    hide Step, Feed, Read, HandedOnLastByte, LeavesBlock, Unfinished, Dropped, FixedPart, Leb, Pow128, Begun;
    ReadExactly(cfg, c, OneSection(h, id, body, n));
    if id <= MaxSectionType(cfg) {
      KnownId(cfg, h, id, body, n);
      var m := Begun(Described(h).(url := h.url), true).(sections := [Section(id, |body|, body)]);
      assert HandedOnLastByte(cfg, c, OneSection(h, id, body, n), m);
    } else {
      UnknownId(cfg, h, id, body, n);
    }
  }
}
