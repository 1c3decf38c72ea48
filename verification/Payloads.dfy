/**
 Any bytes as an install request. `Read` takes a request apart record by record; `ReceivedAsRead` proves that the
 receiver of core/app-mgr/app-manager/module_wasm_app.c, fed the bytes one at a time, ends exactly as `Read` says.
 */
module Payloads {
  import opened Bytes
  import opened Install
  import opened Reception
  import opened AotFile

  // Reading a request

  /** A thing read to its end, or bytes that end too early, are refused, or have no room in the receiver's block. */
  datatype Reading<T> = Whole(value: T) | Cut | Refused | Astray

  function Failed<T, U>(r: Reading<T>): Reading<U>
    requires !r.Whole?
  {
    match r
    case Cut => Cut
    case Refused => Refused
    case Astray => Astray
  }

  /** One more group of seven bits in a section size. */
  function WithGroup(acc: uint32, k: nat, ch: byte): (r: uint32)
    requires k < 5 && acc < Pow128(k)
    ensures r < Pow128(k + 1)
  {
    Pow128Values();
    acc + ch % 128 * Pow128(k) % 0x1_0000_0000
  }

  /** The LEB128 size at `q`, from byte `k` of it on, and where it ends. */
  function SizeAt(bs: seq<byte>, q: nat, k: nat, acc: uint32): (r: Reading<(uint32, nat)>)
    requires acc < Pow128(k)
    ensures r.Whole? ==> q < r.value.1 <= |bs|
    ensures !r.Astray?
    decreases |bs| - q
  {
    if q >= |bs| then Cut
    else if k >= 5 then Refused
    else
      var acc' := WithGroup(acc, k, bs[q]);
      if bs[q] < 128 then Whole((acc', q + 1)) else SizeAt(bs, q + 1, k + 1, acc')
  }

  function Prepended(s: Section, r: Reading<seq<Section>>): Reading<seq<Section>> {
    if r.Whole? then Whole([s] + r.value) else r
  }

  /** Bytecode sections from `p` to the end: at most one byte may follow an empty body. */
  function WasmSections(cfg: Config, bs: seq<byte>, p: nat): Reading<seq<Section>>
    decreases |bs| - p
  {
    if p >= |bs| then Cut
    else if bs[p] > MaxSectionType(cfg) then Refused
    else
      var read := SizeAt(bs, p + 1, 0, 0);
      if !read.Whole? then Failed(read)
      else
        var (size, q) := read.value;
        if size == 0 then if |bs| <= q + 1 then Cut else Astray
        else if q + size > |bs| then Cut
        else
          var s := Section(bs[p], size, bs[q..q + size]);
          if q + size == |bs| then Whole([s]) else Prepended(s, WasmSections(cfg, bs, q + size))
  }

  /** AOT sections from `p` to the end, the file starting at `file`: nothing may follow an empty body. */
  function AotSections(cfg: Config, bs: seq<byte>, file: nat, p: nat): Reading<seq<Section>>
    requires file <= p
    decreases |bs| - p
  {
    var q := file + Align4(p - file);
    if q + 4 > |bs| then Cut
    else if !KnownAotSection(U32At(bs, q)) then Refused
    else if q + 8 > |bs| then Cut
    else
      var kind, size, end := U32At(bs, q), U32At(bs, q + 4), q + 8 + U32At(bs, q + 4);
      if !TextFits(cfg, Section(kind, size, [])) then Refused
      else if size == 0 then if |bs| == end then Cut else Astray
      else if end > |bs| then Cut
      else
        var s := PadText(cfg, Section(kind, size, bs[q + 8..end]));
        if end == |bs| then Whole([s]) else Prepended(s, AotSections(cfg, bs, file, end))
  }

  function MagicOf(wasm: bool): (s: seq<byte>)
    ensures |s| == 4
  {
    if wasm then WASM_MAGIC else AOT_MAGIC
  }

  function VersionOf(wasm: bool): (s: seq<byte>)
    ensures |s| == 4
  {
    if wasm then WASM_VERSION else AOT_VERSION
  }

  /** The magic and version of a file: whether it is a bytecode file. */
  function HeadOf(s: seq<byte>): Reading<bool> {
    if |s| < 4 then Cut
    else if s[..4] != WASM_MAGIC && s[..4] != AOT_MAGIC then Refused
    else
      var wasm := s[..4] == WASM_MAGIC;
      if VersionOf(wasm) <= s[4..] then Whole(wasm) else if s[4..] <= VersionOf(wasm) then Cut else Refused
  }

  /** The message that the first eighteen bytes describe. */
  function HeaderOf(bs: seq<byte>): Message
    requires |bs| >= 18
  {
    Message(bs[1], FromBE16(bs[2..4]), FromBE32(bs[4..8]), FromBE32(bs[8..12]), FromBE16(bs[12..14]),
            FromBE32(bs[14..18]), [], 0, 0, [])
  }

  /** The message with the sections added. */
  function Onto(m: Message, r: Reading<seq<Section>>): Reading<Message> {
    if r.Whole? then Whole(m.(sections := m.sections + r.value)) else Failed(r)
  }

  /** The file that starts at `file`, behind header and URL. */
  function FileRead(cfg: Config, m: Message, bs: seq<byte>, file: nat): Reading<Message>
    requires file <= |bs|
  {
    var head := HeadOf(bs[file..]);
    if !head.Whole? then Failed(head)
    else
      Onto(Begun(m, head.value),
           if head.value then WasmSections(cfg, bs, file + 8) else AotSections(cfg, bs, file, file + 8))
  }

  /** An install request: header, URL, file. A URL announced as empty has room for one byte. */
  function Read(cfg: Config, bs: seq<byte>): Reading<Message> {
    if bs == [] then Cut
    else if bs[0] != 1 then Refused
    else if |bs| < 18 then Cut
    else
      var m := HeaderOf(bs);
      var file := 18 + m.urlLen;
      if m.urlLen == 0 then if |bs| <= 19 then Cut else Astray
      else if |bs| < file then Cut
      else FileRead(cfg, m.(url := bs[18..file]), bs, file)
  }

  // Section sizes

  /** The number that LEB128 bytes stand for. */
  function LebValue(s: seq<byte>): nat {
    if s == [] then 0 else s[0] % 128 + 128 * LebValue(s[1..])
  }

  lemma LowGroup(acc: nat, low: nat, p: nat)
    requires acc < p <= 0x20_0000 && low < 128
    ensures low * p % 0x1_0000_0000 == low * p && (acc + low * p) % 0x1_0000_0000 == acc + low * p
  {
    assert 0 <= low * p <= 127 * p;
  }

  lemma FifthGroup(acc: nat, low: nat)
    requires acc < 0x1000_0000 && low < 128
    ensures (acc + low * 0x1000_0000) % 0x1_0000_0000 == acc + low * 0x1000_0000 % 0x1_0000_0000
    ensures low * 0x1000_0000 % 0x1_0000_0000 == low * 0x1000_0000 <==> low < 16
  {
    assert low * 0x1000_0000 == low / 16 * 0x1_0000_0000 + low % 16 * 0x1000_0000;
  }

  /** One group adds its weight; only the fifth can overflow. */
  lemma GroupValue(acc: uint32, k: nat, ch: byte)
    requires k < 5 && acc < Pow128(k)
    ensures var v := acc + ch % 128 * Pow128(k);
            WithGroup(acc, k, ch) == v % 0x1_0000_0000 && (WithGroup(acc, k, ch) == v <==> k < 4 || ch % 128 < 16)
  {
    Pow128Values();
    hide Pow128;
    if k < 4 {
      LowGroup(acc, ch % 128, Pow128(k));
    } else {
      FifthGroup(acc, ch % 128);
    }
  }

  lemma Weighted(acc: nat, low: nat, rest: nat, p: nat)
    ensures acc + (low + 128 * rest) * p == acc + low * p + rest * (128 * p)
  {
  }

  /** A size that is read to its end is the number its bytes stand for, unless a fifth byte does not fit 32 bits. */
  lemma {:induction false} SizeIsValue(bs: seq<byte>, q: nat, k: nat, acc: uint32)
    requires acc < Pow128(k) && SizeAt(bs, q, k, acc).Whole?
    ensures var (size, r) := SizeAt(bs, q, k, acc).value;
            && k + r - q <= 5 && size == (acc + LebValue(bs[q..r]) * Pow128(k)) % 0x1_0000_0000
            && (size == acc + LebValue(bs[q..r]) * Pow128(k) <==> k + r - q < 5 || bs[q + 4 - k] < 16)
    decreases |bs| - q
  {
    hide Pow128, WithGroup;
    var ch, r := bs[q], SizeAt(bs, q, k, acc).value.1;
    var rest := bs[q + 1..r];
    assert bs[q..r][0] == ch && bs[q..r][1..] == rest;
    GroupValue(acc, k, ch);
    if ch < 128 {
      assert rest == [];
    } else {
      SizeIsValue(bs, q + 1, k + 1, WithGroup(acc, k, ch));
      Weighted(acc, ch % 128, LebValue(rest), Pow128(k));
      NextWeight(k);
    }
  }

  lemma NextWeight(k: nat)
    ensures Pow128(k + 1) == 128 * Pow128(k)
  {
  }

  lemma SizeStep(bs: seq<byte>, q: nat, k: nat, acc: uint32, acc': uint32)
    requires k < 5 && acc < Pow128(k) && q < |bs| && WithGroup(acc, k, bs[q]) == acc'
    ensures acc' < Pow128(k + 1)
    ensures SizeAt(bs, q, k, acc) == if bs[q] < 128 then Whole((acc', q + 1)) else SizeAt(bs, q + 1, k + 1, acc')
  {
    hide Pow128, WithGroup;
  }

  /** Groups that add nothing to 1: zero, and a fifth one that is shifted out. */
  lemma NothingAdded(k: nat, ch: byte)
    requires 1 <= k < 5 && (ch == 0x80 || (k == 4 && ch == 0x10))
    ensures 1 < Pow128(k) && WithGroup(1, k, ch) == 1
  {
    Pow128Values();
    hide Pow128, WithGroup;
    assert 1 < Pow128(k);
    GroupValue(1, k, ch);
  }

  /**
   Five bytes that section 5.2.2 of the WebAssembly Core Specification 1.0 does not allow for a 32-bit number are read
   as the size 1.
   */
  lemma OverlongSize(bs: seq<byte>)
    requires bs == [0x81, 0x80, 0x80, 0x80, 0x10]
    ensures SizeAt(bs, 0, 0, 0) == Whole((1, 5))
  {
    hide SizeAt, Pow128, WithGroup;
    Pow128Values();
    GroupValue(0, 0, 0x81);
    NothingAdded(1, 0x80);
    NothingAdded(2, 0x80);
    NothingAdded(3, 0x80);
    NothingAdded(4, 0x10);
    SizeStep(bs, 4, 4, 1, 1);
    SizeStep(bs, 3, 3, 1, 1);
    SizeStep(bs, 2, 2, 1, 1);
    SizeStep(bs, 1, 1, 1, 1);
    SizeStep(bs, 0, 0, 0, 1);
  }

  // Reading back what was laid out

  /** A header and its URL, followed by anything, are read as they were. */
  lemma HeaderBack(h: Header, rest: seq<byte>)
    requires |h.url| < 0x1_0000
    ensures var bs := FixedPart(h) + h.url + rest;
            && bs[0] == 1 && HeaderOf(bs) == Described(h) && bs[18..18 + |h.url|] == h.url
            && bs[18 + |h.url|..] == rest
  {
    hide BE16, BE32, FromBE16, FromBE32;
    var fixed, bs := FixedPart(h), FixedPart(h) + h.url + rest;
    assert bs[2..4] == fixed[2..4] == BE16(h.fmt) && bs[4..8] == fixed[4..8] == BE32(h.mid);
    assert bs[8..12] == fixed[8..12] == BE32(h.sender) && bs[12..14] == fixed[12..14] == BE16(|h.url|);
    assert bs[14..18] == fixed[14..18] == BE32(h.appSize);
    Image16(h.fmt, [0, 0]);
    Image16(|h.url|, [0, 0]);
    BE32Inverse(h.mid);
    BE32Inverse(h.sender);
    BE32Inverse(h.appSize);
  }

  /** A file of a known kind is read by its sections. */
  lemma FileBack(cfg: Config, m: Message, pre: seq<byte>, wasm: bool, sections: seq<byte>)
    ensures var bs := pre + (FileHead(wasm) + sections);
            && bs == pre + FileHead(wasm) + sections
            && FileRead(cfg, m, bs, |pre|) ==
               Onto(Begun(m, wasm), if wasm then WasmSections(cfg, bs, |pre| + 8)
                                    else AotSections(cfg, bs, |pre|, |pre| + 8))
  {
    hide WasmSections, AotSections, FromLE32;
    var bs, file := pre + (FileHead(wasm) + sections), FileHead(wasm) + sections;
    assert bs[|pre|..] == file;
    assert file[..4] == MagicOf(wasm) && file[4..] == VersionOf(wasm) + sections;
    assert WASM_MAGIC[2] != AOT_MAGIC[2];
  }

  // The receiver

  /** The receiver has ended as the reading says. */
  ghost predicate Ends(cfg: Config, o: Outcome, r: Reading<Message>) {
    match r
    case Whole(m) =>
      if cfg.postOk then o == Outcome(EMPTY_CTX, true, [m]) else !o.ok && o.handed == [] && o.ctx.phase == Released
    case Cut => o.ok && o.handed == [] && Busy(o.ctx)
    case Refused => !o.ok && o.handed == [] && Idle(o.ctx)
    case Astray => !o.ok && o.handed == [] && o.ctx.phase == Outside
  }

  lemma FailEnds(cfg: Config)
    ensures Ends(cfg, FAIL, Refused)
  {
  }

  /** A part of an accepted run is cut off. */
  lemma CutPart(cfg: Config, c: Ctx, bs: seq<byte>, total: nat, d: Ctx, k: nat)
    requires Wf(c) && Reaches(cfg, c, bs, total, d) && k <= |bs| && (k > 0 || Busy(c))
    ensures Ends(cfg, Feed(cfg, c, bs[..k], total), Cut)
  {
    hide Step, Feed;
    NothingHandedYet(cfg, c, bs, total, d, k);
    Goes(cfg, c, bs[..k], total);
  }

  /** After a refused part the rest is not looked at. */
  lemma RefusedPart(cfg: Config, c: Ctx, a: seq<byte>, b: seq<byte>, total: nat)
    requires Wf(c) && !Feed(cfg, c, a, total).ok
    ensures Feed(cfg, c, a + b, total) == Feed(cfg, c, a, total)
  {
    hide Step, Feed;
    FeedConcat(cfg, c, a, b, total);
  }

  lemma RefusedByte(cfg: Config, c: Ctx, bs: seq<byte>, total: nat)
    requires Wf(c) && bs != [] && !Step(cfg, c, bs[0], total).ok
    ensures Feed(cfg, c, bs, total) == Step(cfg, c, bs[0], total)
  {
    hide Step;
  }

  /** Three accepted bytes. */
  lemma ReachesThree(cfg: Config, c: Ctx, s: seq<byte>, c1: Ctx, c2: Ctx, c3: Ctx, total: nat)
    requires |s| == 3 && Wf(c) && Wf(c1) && Wf(c2) && Wf(c3)
    requires Step(cfg, c, s[0], total) == Go(c1) && Step(cfg, c1, s[1], total) == Go(c2)
    requires Step(cfg, c2, s[2], total) == Go(c3)
    ensures Reaches(cfg, c, s, total, c3)
  {
    hide Step, Wf;
    ReachesNil(cfg, c3, total);
    assert [s[2]] + [] == [s[2]] && [s[1]] + [s[2]] == [s[1], s[2]] && [s[0]] + [s[1], s[2]] == s;
    ReachesCons(cfg, c2, s[2], c3, [], c3, total);
    ReachesCons(cfg, c1, s[1], c2, [s[2]], c3, total);
    ReachesCons(cfg, c, s[0], c1, [s[1], s[2]], c3, total);
  }

  /** Three bytes that lead to `d`, then one that decides. */
  lemma FourthByte(cfg: Config, c: Ctx, s: seq<byte>, d: Ctx, total: nat)
    requires |s| == 4 && Wf(c) && Wf(d) && Reaches(cfg, c, s[..3], total, d)
    ensures var o := Step(cfg, d, s[3], total);
            && (!o.ok ==> Feed(cfg, c, s, total) == o)
            && (o == Go(o.ctx) ==> Reaches(cfg, c, s, total, o.ctx))
  {
    hide Step, Wf;
    assert s[..3] + [s[3]] == s;
    After(cfg, c, s[..3], d, [s[3]], total);
    OneByte(cfg, d, s[3], total);
  }

  lemma OneByte(cfg: Config, c: Ctx, ch: byte, total: nat)
    requires Wf(c)
    ensures Feed(cfg, c, [ch], total) == Step(cfg, c, ch, total)
  {
    hide Step;
    StepKeepsWf(cfg, c, ch, total);
    var o := Step(cfg, c, ch, total);
    assert [ch][1..] == [] && o.handed + [] == o.handed;
  }

  // Header

  /** Any eighteen bytes that start with the version are a header. */
  lemma HeaderRead(s: seq<byte>) returns (h: Header)
    requires |s| == 18 && s[0] == 1
    ensures |h.url| == FromBE16(s[12..14]) && FixedPart(h) == s && Described(h) == HeaderOf(s)
  {
    hide BE16, BE32, FromBE16, FromBE32;
    h := Header(s[1], FromBE16(s[2..4]), FromBE32(s[4..8]), FromBE32(s[8..12]), FromBE32(s[14..18]),
                Zeros(FromBE16(s[12..14])));
    Image16(0, s[2..4]);
    Image16(0, s[12..14]);
    FromBE32Inverse(s[4..8]);
    FromBE32Inverse(s[8..12]);
    FromBE32Inverse(s[14..18]);
    Reassembled(s);
  }

  lemma Reassembled(s: seq<byte>)
    requires |s| == 18
    ensures s == [s[0], s[1]] + s[2..4] + s[4..8] + s[8..12] + s[12..14] + s[14..18]
  {
  }

  lemma ShortHeader(cfg: Config, c: Ctx, bs: seq<byte>, total: nat)
    requires Idle(c) && 0 < |bs| < 18 && bs[0] == 1
    ensures Wf(c) && Ends(cfg, Feed(cfg, c, bs, total), Cut)
  {
    hide Step, Feed, FixedPart;
    var s := bs + Zeros(18 - |bs|);
    var h := HeaderRead(s);
    FixedPartReaches(cfg, c, h, total);
    CutPart(cfg, c, s, total, Ctx(ReqUrl, 0, Described(h), 18), |bs|);
    assert s[..|bs|] == bs;
  }

  lemma WrongVersion(cfg: Config, c: Ctx, bs: seq<byte>, total: nat)
    requires Idle(c) && bs != [] && bs[0] != 1
    ensures Wf(c) && Ends(cfg, Feed(cfg, c, bs, total), Refused)
  {
    RefusedByte(cfg, c, bs, total);
  }

  // Magic and version

  function Stored3(v: uint32, s: seq<byte>): uint32
    requires |s| == 3
  {
    PutByte32(PutByte32(PutByte32(v, 0, s[0]), 1, s[1]), 2, s[2])
  }

  /** Three bytes of any magic are stored. */
  lemma MagicStart(cfg: Config, c: Ctx, s: seq<byte>, total: nat)
    requires c.phase == AppMagic && c.sizeInPhase == 0 && |s| == 3
    ensures var d := Ctx(AppMagic, 3, c.message.(magic := Stored3(c.message.magic, s)), c.totalReceived + 3);
            Wf(c) && Wf(d) && Reaches(cfg, c, s, total, d)
  {
    hide PutByte32, LE32;
    var m, t := c.message, c.totalReceived;
    var v1 := PutByte32(m.magic, 0, s[0]);
    var v2 := PutByte32(v1, 1, s[1]);
    ReachesThree(cfg, c, s, Ctx(AppMagic, 1, m.(magic := v1), t + 1), Ctx(AppMagic, 2, m.(magic := v2), t + 2),
                 Ctx(AppMagic, 3, m.(magic := Stored3(m.magic, s)), t + 3), total);
  }

  lemma MagicShort(cfg: Config, c: Ctx, bs: seq<byte>, total: nat)
    requires c.phase == AppMagic && c.sizeInPhase == 0 && |bs| < 4
    ensures Wf(c) && Ends(cfg, Feed(cfg, c, bs, total), Cut)
  {
    hide Step, Feed, Stored3;
    var s := bs + Zeros(3 - |bs|);
    MagicStart(cfg, c, s, total);
    CutPart(cfg, c, s, total, Ctx(AppMagic, 3, c.message.(magic := Stored3(c.message.magic, s)), c.totalReceived + 3),
            |bs|);
    assert s[..|bs|] == bs;
  }

  /** An unknown magic is refused on its last byte. */
  lemma MagicRefused(cfg: Config, c: Ctx, s: seq<byte>, total: nat)
    requires c.phase == AppMagic && c.sizeInPhase == 0 && |s| == 4 && s != WASM_MAGIC && s != AOT_MAGIC
    ensures Wf(c) && Feed(cfg, c, s, total) == FAIL
  {
    hide Feed, PutByte32, LE32, FromLE32;
    var d := Ctx(AppMagic, 3, c.message.(magic := Stored3(c.message.magic, s[..3])), c.totalReceived + 3);
    MagicStart(cfg, c, s[..3], total);
    StoredThenSwapped32(c.message.magic, s);
    FromLE32Inverse(s);
    assert PutByte32(d.message.magic, 3, s[3]) == FromLE32(s);
    assert Step(cfg, d, s[3], total) == FAIL;
    FourthByte(cfg, c, s, d, total);
  }

  lemma VersionByteSteps(cfg: Config, c: Ctx, wasm: bool, ch: byte, total: nat)
    requires c.phase == (if wasm then WasmVersion else AotVersion) && c.sizeInPhase < 4
    ensures var o := Step(cfg, c, ch, total);
            && Wf(c) && (if ch == VersionOf(wasm)[c.sizeInPhase] then o == Go(o.ctx) else o == FAIL)
            && (o.ok && c.sizeInPhase < 3 ==> o.ctx.phase == c.phase && o.ctx.sizeInPhase == c.sizeInPhase + 1)
  {
    hide PutByte32;
  }

  /** A version that is cut off or wrong. */
  lemma {:induction false} VersionFails(cfg: Config, c: Ctx, wasm: bool, bs: seq<byte>, total: nat)
    requires c.phase == (if wasm then WasmVersion else AotVersion) && c.sizeInPhase < 4
    requires !(VersionOf(wasm)[c.sizeInPhase..] <= bs)
    ensures Wf(c)
    ensures Ends(cfg, Feed(cfg, c, bs, total), if bs <= VersionOf(wasm)[c.sizeInPhase..] then Cut else Refused)
    decreases bs
  {
    hide Step, VersionOf;
    var k, v := c.sizeInPhase, VersionOf(wasm);
    if bs != [] {
      VersionByteSteps(cfg, c, wasm, bs[0], total);
      assert v[k..][0] == v[k] && v[k..] == [v[k]] + v[k + 1..] && bs == [bs[0]] + bs[1..];
      assert k == 3 ==> v[k + 1..] == [];
      if bs[0] != v[k] {
        RefusedByte(cfg, c, bs, total);
      } else {
        var d := Step(cfg, c, bs[0], total).ctx;
        VersionFails(cfg, d, wasm, bs[1..], total);
        assert bs <= v[k..] <==> bs[1..] <= v[k + 1..];
      }
    }
  }

  /** The context behind magic and version. */
  function Begin(c: Ctx, wasm: bool): Ctx {
    var phase := if wasm then WasmSectionType else AotSectionId;
    Ctx(phase, 0, Begun(c.message, wasm), c.totalReceived + 8)
  }

  /** The magic and version of a file, whatever its bytes are. */
  lemma HeadDecides(cfg: Config, c: Ctx, bs: seq<byte>, total: nat)
    requires c.phase == AppMagic && c.sizeInPhase == 0
    ensures Wf(c)
    ensures var head := HeadOf(bs);
            if head.Whole? then |bs| >= 8 && Reaches(cfg, c, bs[..8], total, Begin(c, head.value))
            else Ends(cfg, Feed(cfg, c, bs, total), Failed(head))
  {
    hide Step, Feed, FromLE32;
    if |bs| < 4 {
      MagicShort(cfg, c, bs, total);
    } else {
      var s, rest := bs[..4], bs[4..];
      assert s + rest == bs;
      if s != WASM_MAGIC && s != AOT_MAGIC {
        MagicRefused(cfg, c, s, total);
        RefusedPart(cfg, c, s, rest, total);
      } else {
        var wasm := s == WASM_MAGIC;
        var phase := if wasm then WasmVersion else AotVersion;
        var d := Ctx(phase, 0, c.message.(magic := FromLE32(s)), c.totalReceived + 4);
        MagicReaches(cfg, c, wasm, total);
        if VersionOf(wasm) <= rest {
          VersionReaches(cfg, d, wasm, total);
          Chain(cfg, c, s, d, VersionOf(wasm), Begin(c, wasm), total);
          assert bs[..8] == s + rest[..4] == s + VersionOf(wasm);
        } else {
          After(cfg, c, s, d, rest, total);
          assert VersionOf(wasm)[0..] == VersionOf(wasm);
          VersionFails(cfg, d, wasm, rest, total);
        }
      }
    }
  }

  // Section bodies

  /** A message to which section `s` is being added, `k` bytes into the phase. */
  function Adding(phase: Phase, k: nat, m: Message, s: Section, received: nat): Ctx {
    Ctx(phase, k, m.(sections := m.sections + [s]), received)
  }

  lemma Added(m: Message, s: Section, t: Section)
    ensures var n := m.(sections := m.sections + [s]);
            n.sections != [] && Last(n) == s && WithLast(n, t) == m.(sections := m.sections + [t])
  {
    assert (m.sections + [s])[..|m.sections|] == m.sections;
  }

  predicate Content(phase: Phase) {
    phase == WasmSectionContent || phase == AotSectionContent
  }

  /** A complete section as the receiver keeps it. */
  function Kept(cfg: Config, phase: Phase, s: Section): Section {
    if phase == AotSectionContent then PadText(cfg, s) else s
  }

  /** Where the next section starts. */
  function Following(cfg: Config, phase: Phase, m: Message, s: Section, received: nat): Ctx {
    Adding(if phase == AotSectionContent then AotSectionId else WasmSectionType, 0, m, Kept(cfg, phase, s), received)
  }

  /** The last byte of a body: the request is over, or the next section starts. */
  lemma LastBodyByte(cfg: Config, phase: Phase, m: Message, s: Section, received: nat, total: nat)
    requires Content(phase) && |s.body| == s.size > 0
    ensures var n, end := s.size - 1, received + s.size;
            var e := Adding(phase, n, m, s.(body := s.body[..n]), received + n);
            var o, d := Step(cfg, e, s.body[n], total), Following(cfg, phase, m, s, end);
            && Wf(e) && (end != total ==> o == Go(d)) && (end == total ==> Ends(cfg, o, Whole(d.message)))
  {
    hide PadText, WithLast;
    var n := s.size - 1;
    var t := s.(body := s.body[..n]);
    assert s.body[..n] + [s.body[n]] == s.body;
    Added(m, t, s);
    Added(m, t, PadText(cfg, s));
  }

  lemma BodyContext(phase: Phase, m: Message, s: Section, part: seq<byte>, received: nat)
    requires s.body == []
    ensures BodyAfter(Adding(phase, 0, m, s, received), part)
            == Adding(phase, |part|, m, s.(body := part), received + |part|)
  {
    hide WithLast;
    Added(m, s, s.(body := part));
    assert [] + part == part;
  }

  /** A body of positive size that is all there. */
  lemma BodyPasses(cfg: Config, phase: Phase, m: Message, s: Section, received: nat, total: nat)
    requires Content(phase) && |s.body| == s.size > 0
    ensures var c, d := Adding(phase, 0, m, s.(body := []), received), Following(cfg, phase, m, s, received + s.size);
            && Wf(c) && (received + s.size != total ==> Reaches(cfg, c, s.body, total, d))
            && (received + s.size == total ==> Ends(cfg, Feed(cfg, c, s.body, total), Whole(d.message)))
  {
    hide Step, Feed, Following;
    var n, t := s.size - 1, s.(body := []);
    var c, e := Adding(phase, 0, m, t, received), Adding(phase, n, m, s.(body := s.body[..n]), received + n);
    Added(m, t, t);
    BodyPart(cfg, c, s.body[..n], total);
    BodyContext(phase, m, t, s.body[..n], received);
    LastBodyByte(cfg, phase, m, s, received, total);
    After(cfg, c, s.body[..n], e, [s.body[n]], total);
    OneByte(cfg, e, s.body[n], total);
    assert s.body[..n] + [s.body[n]] == s.body;
  }

  /** A body of positive size that is not all there. */
  lemma BodyShort(cfg: Config, phase: Phase, m: Message, s: Section, part: seq<byte>, received: nat, total: nat)
    requires Content(phase) && s.body == [] && |part| < s.size
    ensures var c := Adding(phase, 0, m, s, received); Wf(c) && Ends(cfg, Feed(cfg, c, part, total), Cut)
  {
    hide Step, Feed;
    Added(m, s, s);
    BodyPart(cfg, Adding(phase, 0, m, s, received), part, total);
  }

  /** An empty body. */
  lemma BodyEmpty(cfg: Config, phase: Phase, m: Message, s: Section, rest: seq<byte>, received: nat, total: nat)
    requires Content(phase) && s.body == [] && s.size == 0
    ensures var c, room := Adding(phase, 0, m, s, received), if phase == WasmSectionContent then 1 else 0;
            Wf(c) && Ends(cfg, Feed(cfg, c, rest, total), if |rest| <= room then Cut else Astray)
  {
    hide Step, Feed;
    Added(m, s, s);
    EmptyBody(cfg, Adding(phase, 0, m, s, received), rest, total);
  }

  // Bytecode sections

  /** One byte of a section size. */
  lemma SizeByteSteps(cfg: Config, m: Message, kind: byte, k: nat, acc: uint32, received: nat, ch: byte, total: nat)
    requires k <= 5 && acc < Pow128(k)
    ensures var e := Adding(WasmSectionSize, k, m, Section(kind, acc, []), received);
            var o := Step(cfg, e, ch, total);
            && Wf(e) && (k == 5 ==> o == FAIL)
            && (k < 5 ==>
                  var s := Section(kind, WithGroup(acc, k, ch), []);
                  o == Go(if ch < 128 then Adding(WasmSectionContent, 0, m, s, received + 1)
                          else Adding(WasmSectionSize, k + 1, m, s, received + 1)))
  {
    hide WithLast, Pow128;
    Pow128Values();
    var s := Section(kind, acc, []);
    Added(m, s, s);
    if k < 5 {
      Added(m, s, Section(kind, WithGroup(acc, k, ch), []));
    }
  }

  /** A section size either is read to its end, or is cut off or refused. */
  lemma {:induction false} SizeDecides(cfg: Config, m: Message, kind: byte, bs: seq<byte>, q: nat, k: nat, acc: uint32,
                                       total: nat)
    requires k <= 5 && acc < Pow128(k) && q <= |bs|
    ensures var e := Adding(WasmSectionSize, k, m, Section(kind, acc, []), q);
            var read := SizeAt(bs, q, k, acc);
            && Wf(e)
            && if read.Whole? then
                 var (size, r) := read.value;
                 Reaches(cfg, e, bs[q..r], total, Adding(WasmSectionContent, 0, m, Section(kind, size, []), r))
               else Ends(cfg, Feed(cfg, e, bs[q..], total), Failed(read))
    decreases |bs| - q
  {
    hide Step, Wf, Pow128, Feed, WithGroup;
    var e := Adding(WasmSectionSize, k, m, Section(kind, acc, []), q);
    SizeByteSteps(cfg, m, kind, k, acc, q, 0, total);
    if q == |bs| {
      assert bs[q..] == [];
      ReachesNil(cfg, e, total);
    } else {
      var ch, rest := bs[q], bs[q + 1..];
      assert bs[q..] == [ch] + rest;
      SizeByteSteps(cfg, m, kind, k, acc, q, ch, total);
      OneByte(cfg, e, ch, total);
      if k == 5 {
        RefusedPart(cfg, e, [ch], rest, total);
      } else if ch < 128 {
        assert bs[q..q + 1] == [ch];
      } else {
        var acc' := WithGroup(acc, k, ch);
        var d := Adding(WasmSectionSize, k + 1, m, Section(kind, acc', []), q + 1);
        SizeDecides(cfg, m, kind, bs, q + 1, k + 1, acc', total);
        After(cfg, e, [ch], d, rest, total);
        var next := SizeAt(bs, q + 1, k + 1, acc');
        if next.Whole? {
          var (size, r) := next.value;
          Chain(cfg, e, [ch], d, bs[q + 1..r], Adding(WasmSectionContent, 0, m, Section(kind, size, []), r), total);
          assert [ch] + bs[q + 1..r] == bs[q..r];
        }
      }
    }
  }

  lemma TypeByte(cfg: Config, d: Ctx, ch: byte, total: nat)
    requires d.phase == WasmSectionType
    ensures Wf(d)
    ensures Step(cfg, d, ch, total) ==
            if ch > MaxSectionType(cfg) then FAIL
            else Go(Adding(WasmSectionSize, 0, d.message, Section(ch, 0, []), d.totalReceived + 1))
  {
  }

  /** Bytecode sections, whatever the bytes are. */
  lemma {:induction false} WasmDecides(cfg: Config, d: Ctx, bs: seq<byte>, p: nat)
    requires d.phase == WasmSectionType && d.sizeInPhase == 0 && d.totalReceived == p <= |bs|
    ensures Wf(d) && Ends(cfg, Feed(cfg, d, bs[p..], |bs|), Onto(d.message, WasmSections(cfg, bs, p)))
    decreases |bs| - p, 1
  {
    hide Step, Feed, SizeAt, Pow128, Adding;
    Pow128Values();
    if p == |bs| {
      assert bs[p..] == [];
      ReachesNil(cfg, d, |bs|);
    } else {
      var ch, rest := bs[p], bs[p + 1..];
      assert bs[p..] == [ch] + rest;
      TypeByte(cfg, d, ch, |bs|);
      OneByte(cfg, d, ch, |bs|);
      if ch > MaxSectionType(cfg) {
        RefusedPart(cfg, d, [ch], rest, |bs|);
      } else {
        var e := Adding(WasmSectionSize, 0, d.message, Section(ch, 0, []), p + 1);
        After(cfg, d, [ch], e, rest, |bs|);
        SizeDecides(cfg, d.message, ch, bs, p + 1, 0, 0, |bs|);
        var read := SizeAt(bs, p + 1, 0, 0);
        if read.Whole? {
          var (size, q) := read.value;
          var f := Adding(WasmSectionContent, 0, d.message, Section(ch, size, []), q);
          After(cfg, e, bs[p + 1..q], f, bs[q..], |bs|);
          assert bs[p + 1..q] + bs[q..] == rest;
          WasmBody(cfg, d, bs, p, size, q);
        }
      }
    }
  }

  /** A body and what follows it. */
  lemma {:induction false} WasmBody(cfg: Config, d: Ctx, bs: seq<byte>, p: nat, size: uint32, q: nat)
    requires d.phase == WasmSectionType && p < |bs| && bs[p] <= MaxSectionType(cfg)
    requires SizeAt(bs, p + 1, 0, 0) == Whole((size, q))
    ensures var f := Adding(WasmSectionContent, 0, d.message, Section(bs[p], size, []), q);
            Wf(f) && Ends(cfg, Feed(cfg, f, bs[q..], |bs|), Onto(d.message, WasmSections(cfg, bs, p)))
    decreases |bs| - p, 0
  {
    hide Step, Feed, SizeAt, Adding;
    var s := Section(bs[p], size, []);
    if size == 0 {
      BodyEmpty(cfg, WasmSectionContent, d.message, s, bs[q..], q, |bs|);
    } else if q + size > |bs| {
      BodyShort(cfg, WasmSectionContent, d.message, s, bs[q..], q, |bs|);
    } else {
      var t := s.(body := bs[q..q + size]);
      var e := Following(cfg, WasmSectionContent, d.message, t, q + size);
      BodyPasses(cfg, WasmSectionContent, d.message, t, q, |bs|);
      FollowingFields(cfg, WasmSectionContent, d.message, t, q + size);
      if q + size == |bs| {
        assert bs[q..] == t.body;
      } else {
        After(cfg, Adding(WasmSectionContent, 0, d.message, s, q), t.body, e, bs[q + size..], |bs|);
        assert t.body + bs[q + size..] == bs[q..];
        WasmDecides(cfg, e, bs, q + size);
        OntoCons(d.message, t, WasmSections(cfg, bs, q + size));
      }
    }
  }

  lemma FollowingFields(cfg: Config, phase: Phase, m: Message, s: Section, received: nat)
    requires Content(phase)
    ensures var d := Following(cfg, phase, m, s, received);
            && d.phase == (if phase == AotSectionContent then AotSectionId else WasmSectionType)
            && d.sizeInPhase == 0 && d.totalReceived == received
            && d.message == m.(sections := m.sections + [Kept(cfg, phase, s)])
  {
  }

  lemma OntoCons(m: Message, s: Section, r: Reading<seq<Section>>)
    ensures Onto(m.(sections := m.sections + [s]), r) == Onto(m, Prepended(s, r))
  {
    if r.Whole? {
      assert m.sections + [s] + r.value == m.sections + ([s] + r.value);
    }
  }

  // AOT sections

  /** Offset in the file of the byte to come. */
  function NextOffset(d: Ctx): int {
    d.totalReceived - 18 - d.message.urlLen
  }

  /** Up to the next aligned offset, bytes between sections are skipped. */
  lemma {:induction false} PaddingSkipped(cfg: Config, d: Ctx, bs: seq<byte>, total: nat)
    requires d.phase == AotSectionId && d.sizeInPhase == 0
    requires NextOffset(d) >= 0 && NextOffset(d) + |bs| <= Align4(NextOffset(d))
    ensures Wf(d) && Reaches(cfg, d, bs, total, d.(totalReceived := d.totalReceived + |bs|))
    decreases bs
  {
    hide PutByte32;
    if bs != [] {
      var e := d.(totalReceived := d.totalReceived + 1);
      assert NextOffset(d) % 4 != 0;
      assert Step(cfg, d, bs[0], total) == Go(e);
      PaddingSkipped(cfg, e, bs[1..], total);
      assert [bs[0]] + bs[1..] == bs;
      ReachesCons(cfg, d, bs[0], e, bs[1..], d.(totalReceived := d.totalReceived + |bs|), total);
    }
  }

  /** At an aligned offset, with no section begun. */
  predicate AtRecord(d: Ctx) {
    d.phase == AotSectionId && d.sizeInPhase == 0 && NextOffset(d) % 4 == 0
  }

  /** Three bytes of any kind are stored. */
  lemma KindStart(cfg: Config, d: Ctx, s: seq<byte>, total: nat)
    requires AtRecord(d) && |s| == 3
    ensures var e := Adding(AotSectionId, 3, d.message, Section(Stored3(0, s), 0, []), d.totalReceived + 3);
            Wf(d) && Wf(e) && Reaches(cfg, d, s, total, e)
  {
    hide PutByte32, WithLast;
    var m, t := d.message, d.totalReceived;
    var s1 := Section(PutByte32(0, 0, s[0]), 0, []);
    var s2 := Section(PutByte32(s1.kind, 1, s[1]), 0, []);
    var s3 := Section(Stored3(0, s), 0, []);
    Added(m, Section(0, 0, []), s1);
    Added(m, s1, s2);
    Added(m, s2, s3);
    Added(m, s3, s3);
    ReachesThree(cfg, d, s, Adding(AotSectionId, 1, m, s1, t + 1), Adding(AotSectionId, 2, m, s2, t + 2),
                 Adding(AotSectionId, 3, m, s3, t + 3), total);
  }

  /** Four bytes at an aligned offset open a section of that kind, if it is a known one. */
  lemma KindDecides(cfg: Config, d: Ctx, s: seq<byte>, total: nat)
    requires AtRecord(d) && |s| == 4
    ensures Wf(d)
    ensures if KnownAotSection(FromLE32(s))
            then Reaches(cfg, d, s, total,
                         Adding(AotSectionSize, 0, d.message, Section(FromLE32(s), 0, []), d.totalReceived + 4))
            else Feed(cfg, d, s, total) == FAIL
  {
    hide PutByte32, WithLast, FromLE32, Feed, KnownAotSection;
    var m := d.message;
    var s3 := Section(Stored3(0, s[..3]), 0, []);
    var e := Adding(AotSectionId, 3, m, s3, d.totalReceived + 3);
    KindStart(cfg, d, s[..3], total);
    StoredThenSwapped32(0, s);
    assert PutByte32(s3.kind, 3, s[3]) == FromLE32(s);
    Added(m, s3, Section(FromLE32(s), 0, []));
    FourthByte(cfg, d, s, e, total);
  }

  /** Three bytes of any size are stored. */
  lemma SizeStart(cfg: Config, m: Message, kind: uint32, s: seq<byte>, received: nat, total: nat)
    requires |s| == 3
    ensures var c := Adding(AotSectionSize, 0, m, Section(kind, 0, []), received);
            var e := Adding(AotSectionSize, 3, m, Section(kind, Stored3(0, s), []), received + 3);
            Wf(c) && Wf(e) && Reaches(cfg, c, s, total, e)
  {
    hide PutByte32, WithLast;
    var s0 := Section(kind, 0, []);
    var s1 := s0.(size := PutByte32(0, 0, s[0]));
    var s2 := s0.(size := PutByte32(s1.size, 1, s[1]));
    var s3 := s0.(size := Stored3(0, s));
    Added(m, s0, s1);
    Added(m, s1, s2);
    Added(m, s2, s3);
    Added(m, s3, s3);
    ReachesThree(cfg, Adding(AotSectionSize, 0, m, s0, received), s, Adding(AotSectionSize, 1, m, s1, received + 1),
                 Adding(AotSectionSize, 2, m, s2, received + 2), Adding(AotSectionSize, 3, m, s3, received + 3), total);
  }

  /** The next four bytes are its size; a text section too big to map is refused. */
  lemma SizeFieldDecides(cfg: Config, m: Message, kind: uint32, s: seq<byte>, received: nat, total: nat)
    requires |s| == 4
    ensures var c, t := Adding(AotSectionSize, 0, m, Section(kind, 0, []), received), Section(kind, FromLE32(s), []);
            && Wf(c)
            && if TextFits(cfg, t) then Reaches(cfg, c, s, total, Adding(AotSectionContent, 0, m, t, received + 4))
               else Feed(cfg, c, s, total) == FAIL
  {
    hide PutByte32, WithLast, FromLE32, Feed, PaddedTextSize;
    var s3 := Section(kind, Stored3(0, s[..3]), []);
    var c, e := Adding(AotSectionSize, 0, m, Section(kind, 0, []), received),
      Adding(AotSectionSize, 3, m, s3, received + 3);
    SizeStart(cfg, m, kind, s[..3], received, total);
    StoredThenSwapped32(0, s);
    assert PutByte32(s3.size, 3, s[3]) == FromLE32(s);
    Added(m, s3, Section(kind, FromLE32(s), []));
    FourthByte(cfg, c, s, e, total);
  }

  lemma KindShort(cfg: Config, d: Ctx, bs: seq<byte>, total: nat)
    requires AtRecord(d) && |bs| < 4
    ensures Wf(d) && Ends(cfg, Feed(cfg, d, bs, total), Cut)
  {
    hide Step, Feed, Stored3;
    var s := bs + Zeros(3 - |bs|);
    KindStart(cfg, d, s, total);
    CutPart(cfg, d, s, total, Adding(AotSectionId, 3, d.message, Section(Stored3(0, s), 0, []), d.totalReceived + 3),
            |bs|);
    assert s[..|bs|] == bs;
  }

  lemma SizeShort(cfg: Config, m: Message, kind: uint32, bs: seq<byte>, received: nat, total: nat)
    requires |bs| < 4
    ensures var c := Adding(AotSectionSize, 0, m, Section(kind, 0, []), received);
            Wf(c) && Ends(cfg, Feed(cfg, c, bs, total), Cut)
  {
    hide Step, Feed, Stored3;
    var c, s := Adding(AotSectionSize, 0, m, Section(kind, 0, []), received), bs + Zeros(3 - |bs|);
    SizeStart(cfg, m, kind, s, received, total);
    CutPart(cfg, c, s, total, Adding(AotSectionSize, 3, m, Section(kind, Stored3(0, s), []), received + 3), |bs|);
    assert s[..|bs|] == bs;
  }

  /** AOT sections, whatever the bytes are. */
  lemma {:induction false} AotDecides(cfg: Config, d: Ctx, bs: seq<byte>, p: nat)
    requires d.phase == AotSectionId && d.sizeInPhase == 0 && d.totalReceived == p <= |bs| && NextOffset(d) >= 0
    ensures Wf(d)
    ensures Ends(cfg, Feed(cfg, d, bs[p..], |bs|),
                 Onto(d.message, AotSections(cfg, bs, 18 + d.message.urlLen, p)))
    decreases |bs| - p, 2
  {
    hide Step, Feed, FromLE32, PaddedTextSize;
    var file := 18 + d.message.urlLen;
    var q := file + Align4(p - file);
    if |bs| < q {
      PaddingSkipped(cfg, d, bs[p..], |bs|);
    } else {
      var e := d.(totalReceived := q);
      PaddingSkipped(cfg, d, bs[p..q], |bs|);
      After(cfg, d, bs[p..q], e, bs[q..], |bs|);
      assert bs[p..q] + bs[q..] == bs[p..];
      Aligned(q - file);
      SameFromAligned(cfg, bs, file, p);
      AotRecord(cfg, e, bs, q);
    }
  }

  lemma Aligned(n: nat)
    requires n % 4 == 0
    ensures Align4(n) == n
  {
  }

  lemma SameFromAligned(cfg: Config, bs: seq<byte>, file: nat, p: nat)
    requires file <= p
    ensures AotSections(cfg, bs, file, file + Align4(p - file)) == AotSections(cfg, bs, file, p)
  {
    hide FromLE32, PaddedTextSize, PadText;
    Aligned(Align4(p - file));
  }

  /** One record, at an aligned offset. */
  lemma {:induction false} AotRecord(cfg: Config, e: Ctx, bs: seq<byte>, q: nat)
    requires AtRecord(e) && e.totalReceived == q <= |bs| && NextOffset(e) >= 0
    ensures Wf(e)
    ensures Ends(cfg, Feed(cfg, e, bs[q..], |bs|), Onto(e.message, AotSections(cfg, bs, 18 + e.message.urlLen, q)))
    decreases |bs| - q, 1
  {
    hide Step, Feed, FromLE32, PaddedTextSize, KnownAotSection, Adding, PadText;
    Aligned(NextOffset(e));
    if q + 4 > |bs| {
      KindShort(cfg, e, bs[q..], |bs|);
    } else {
      var kind := U32At(bs, q);
      KindDecides(cfg, e, bs[q..q + 4], |bs|);
      assert bs[q..q + 4] + bs[q + 4..] == bs[q..];
      if !KnownAotSection(kind) {
        RefusedPart(cfg, e, bs[q..q + 4], bs[q + 4..], |bs|);
      } else {
        var f := Adding(AotSectionSize, 0, e.message, Section(kind, 0, []), q + 4);
        After(cfg, e, bs[q..q + 4], f, bs[q + 4..], |bs|);
        if q + 8 > |bs| {
          SizeShort(cfg, e.message, kind, bs[q + 4..], q + 4, |bs|);
        } else {
          AotSized(cfg, e, bs, q);
        }
      }
    }
  }

  /** What `AotSections` makes of a record with a known kind. */
  lemma RecordRead(cfg: Config, bs: seq<byte>, file: nat, q: nat)
    requires file <= q && (q - file) % 4 == 0 && q + 8 <= |bs| && KnownAotSection(U32At(bs, q))
    ensures var s, end := Section(U32At(bs, q), U32At(bs, q + 4), []), q + 8 + U32At(bs, q + 4);
            AotSections(cfg, bs, file, q) ==
            if !TextFits(cfg, s) then Refused
            else if s.size == 0 then if |bs| == end then Cut else Astray
            else if end > |bs| then Cut
            else
              var t := PadText(cfg, s.(body := bs[q + 8..end]));
              if end == |bs| then Whole([t]) else Prepended(t, AotSections(cfg, bs, file, end))
  {
    hide FromLE32, PaddedTextSize, KnownAotSection, PadText, TextFits;
    Aligned(q - file);
  }

  /** A record from its size on. */
  lemma {:induction false} AotSized(cfg: Config, e: Ctx, bs: seq<byte>, q: nat)
    requires AtRecord(e) && e.totalReceived == q && NextOffset(e) >= 0 && q + 8 <= |bs|
    requires KnownAotSection(U32At(bs, q))
    ensures var f := Adding(AotSectionSize, 0, e.message, Section(U32At(bs, q), 0, []), q + 4);
            Wf(f) && Ends(cfg, Feed(cfg, f, bs[q + 4..], |bs|),
                          Onto(e.message, AotSections(cfg, bs, 18 + e.message.urlLen, q)))
    decreases |bs| - q, 0
  {
    hide Step, Feed, FromLE32, PaddedTextSize, KnownAotSection, Adding, PadText, TextFits, Wf, Ends;
    RecordRead(cfg, bs, 18 + e.message.urlLen, q);
    hide AotSections;
    var m, kind, size := e.message, U32At(bs, q), U32At(bs, q + 4);
    var f, s := Adding(AotSectionSize, 0, m, Section(kind, 0, []), q + 4), Section(kind, size, []);
    SizeFieldDecides(cfg, m, kind, bs[q + 4..q + 8], q + 4, |bs|);
    assert bs[q + 4..q + 8] + bs[q + 8..] == bs[q + 4..];
    if !TextFits(cfg, s) {
      RefusedPart(cfg, f, bs[q + 4..q + 8], bs[q + 8..], |bs|);
      FailEnds(cfg);
    } else {
      var g, rest, end := Adding(AotSectionContent, 0, m, s, q + 8), bs[q + 8..], q + 8 + size;
      After(cfg, f, bs[q + 4..q + 8], g, rest, |bs|);
      if size == 0 {
        BodyEmpty(cfg, AotSectionContent, m, s, rest, q + 8, |bs|);
      } else if end > |bs| {
        BodyShort(cfg, AotSectionContent, m, s, rest, q + 8, |bs|);
      } else {
        AotBody(cfg, e, bs, q, s.(body := bs[q + 8..end]));
      }
    }
  }

  /** A body of positive size and what follows it. */
  lemma {:induction false} AotBody(cfg: Config, e: Ctx, bs: seq<byte>, q: nat, s: Section)
    requires NextOffset(e) == q - 18 - e.message.urlLen >= 0
    requires q + 8 + s.size <= |bs| && s.size > 0 && s.body == bs[q + 8..q + 8 + s.size]
    ensures var g, end := Adding(AotSectionContent, 0, e.message, s.(body := []), q + 8), q + 8 + s.size;
            var t := PadText(cfg, s);
            Wf(g) && Ends(cfg, Feed(cfg, g, bs[q + 8..], |bs|),
                          Onto(e.message, if end == |bs| then Whole([t])
                                          else Prepended(t, AotSections(cfg, bs, 18 + e.message.urlLen, end))))
    decreases |bs| - q - 8, 3
  {
    hide Step, Feed, Adding, PadText, AotSections;
    var end, m := q + 8 + s.size, e.message;
    BodyPasses(cfg, AotSectionContent, m, s, q + 8, |bs|);
    FollowingFields(cfg, AotSectionContent, m, s, end);
    assert s.body + bs[end..] == bs[q + 8..];
    if end == |bs| {
      assert bs[end..] == [] && s.body + [] == s.body;
    } else {
      var d := Following(cfg, AotSectionContent, m, s, end);
      After(cfg, Adding(AotSectionContent, 0, m, s.(body := []), q + 8), s.body, d, bs[end..], |bs|);
      AotDecides(cfg, d, bs, end);
      OntoCons(m, PadText(cfg, s), AotSections(cfg, bs, 18 + m.urlLen, end));
    }
  }

  // Whole requests

  /** From the file on. */
  lemma FileDecides(cfg: Config, d: Ctx, bs: seq<byte>)
    requires d.phase == AppMagic && d.sizeInPhase == 0 && d.totalReceived == 18 + d.message.urlLen <= |bs|
    ensures Wf(d)
    ensures var file := 18 + d.message.urlLen;
            Ends(cfg, Feed(cfg, d, bs[file..], |bs|), FileRead(cfg, d.message, bs, file))
  {
    hide Step, Feed, WasmSections, AotSections, HeadOf, FromLE32;
    var file := 18 + d.message.urlLen;
    var rest := bs[file..];
    HeadDecides(cfg, d, rest, |bs|);
    var head := HeadOf(rest);
    if head.Whole? {
      var e := Begin(d, head.value);
      After(cfg, d, rest[..8], e, bs[file + 8..], |bs|);
      assert rest[..8] + bs[file + 8..] == rest;
      if head.value {
        WasmDecides(cfg, e, bs, file + 8);
      } else {
        AotDecides(cfg, e, bs, file + 8);
      }
    }
  }

  /** From the URL on. */
  lemma UrlDecides(cfg: Config, c: Ctx, bs: seq<byte>)
    requires c.phase == ReqUrl && Wf(c) && c.sizeInPhase == 0 && c.totalReceived == 18 <= |bs|
    ensures var n, file := c.message.urlLen, 18 + c.message.urlLen;
            Ends(cfg, Feed(cfg, c, bs[18..], |bs|),
                 if n == 0 then if |bs| <= 19 then Cut else Astray
                 else if |bs| < file then Cut
                 else FileRead(cfg, c.message.(url := bs[18..file]), bs, file))
  {
    hide Step, Feed, FileRead;
    var n: int := c.message.urlLen;
    var file, rest := 18 + n, bs[18..];
    if n == 0 {
      EmptyUrl(cfg, c, rest, |bs|);
    } else if |bs| < file {
      UrlPart(cfg, c, rest, |bs|);
    } else {
      var url := bs[18..file];
      var d := Ctx(AppMagic, 0, c.message.(url := url), file);
      UrlReaches(cfg, c, url, |bs|);
      After(cfg, c, url, d, bs[file..], |bs|);
      assert url + bs[file..] == rest;
      FileDecides(cfg, d, bs);
    }
  }

  /** For any bytes at all, fed to an idle receiver as one request: it ends as the record-by-record reading says. */
  lemma ReceivedAsRead(cfg: Config, c: Ctx, bs: seq<byte>)
    requires Idle(c) && bs != []
    ensures Wf(c) && Ends(cfg, Feed(cfg, c, bs, |bs|), Read(cfg, bs))
  {
    hide Step, Feed, FileRead, FixedPart, FromBE16, FromBE32;
    if bs[0] != 1 {
      WrongVersion(cfg, c, bs, |bs|);
    } else if |bs| < 18 {
      ShortHeader(cfg, c, bs, |bs|);
    } else {
      var s := bs[..18];
      assert s[2..4] == bs[2..4] && s[4..8] == bs[4..8] && s[8..12] == bs[8..12];
      assert s[12..14] == bs[12..14] && s[14..18] == bs[14..18];
      var h := HeaderRead(s);
      var d := Ctx(ReqUrl, 0, Described(h), 18);
      FixedPartReaches(cfg, c, h, |bs|);
      After(cfg, c, s, d, bs[18..], |bs|);
      assert s + bs[18..] == bs;
      UrlDecides(cfg, d, bs);
    }
  }

  /**
   The four ways for any bytes to end. A message is handed over, on the last byte and not before, if and only if it is
   what the bytes read as; the receiver is left inside the request, drops it, or stores a byte outside its block, each
   if and only if the reading is cut off, refused, or without room.
   */
  lemma ReadExactly(cfg: Config, c: Ctx, bs: seq<byte>)
    requires Idle(c) && cfg.postOk && bs != []
    ensures Wf(c)
    ensures forall m :: HandedOnLastByte(cfg, c, bs, m) <==> Read(cfg, bs) == Whole(m)
    ensures Unfinished(cfg, c, bs) <==> Read(cfg, bs) == Cut
    ensures Dropped(cfg, c, bs) <==> Read(cfg, bs) == Refused
    ensures LeavesBlock(cfg, c, bs) <==> Read(cfg, bs) == Astray
  {
    hide Step, Feed, Read;
    ReceivedAsRead(cfg, c, bs);
    forall k | 0 <= k < |bs| ensures Feed(cfg, c, bs[..k], |bs|).handed == [] {
      NotBeforeLast(cfg, c, bs[..k], |bs|, 0);
    }
  }

  /** Twenty bytes are enough to leave a block: a header that announces no URL and two bytes behind it. */
  lemma ShortestStray(cfg: Config, c: Ctx)
    requires Idle(c)
    ensures Wf(c) && LeavesBlock(cfg, c, [1] + Zeros(19))
  {
    hide Feed, Step;
    var bs: seq<byte> := [1] + Zeros(19);
    assert bs[12..14] == [0, 0];
    ReceivedAsRead(cfg, c, bs);
  }
}
