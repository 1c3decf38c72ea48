/**
 The install-request receiver: core/app-mgr/app-manager/module_wasm_app.c.
 It is driven one byte at a time and rebuilds the request header, the URL and the list of sections of a
 bytecode or AOT file. `Step` is what one byte does to the receive context; `InstallReceiver` is the
 static context that the source updates in place. The URL and the section bodies are blocks of fixed size, and a store
 that would leave its block ends in the phase `Outside`, about which C says nothing more.
 */
module Install {
  import opened Bytes

  datatype Phase =
    | ReqVer | ReqAction | ReqFmt | ReqMid | ReqSender | ReqUrlLen | ReqPayloadLen | ReqUrl
    | AppMagic
    | WasmVersion | WasmSectionType | WasmSectionSize | WasmSectionContent
    | AotVersion | AotSectionId | AotSectionSize | AotSectionContent
    | Released // a content phase whose sections went with a message that could not be posted
    | Outside // a byte has been stored outside its block

  /** A section list node. `body` holds the bytes stored so far; `kind` is the image of a signed field. */
  datatype Section = Section(kind: uint32, size: uint32, body: seq<byte>)

  datatype Message = Message(action: byte, fmt: uint16, mid: uint32, sender: uint32, urlLen: uint16, appSize: uint32,
                             url: seq<byte>, magic: uint32, version: uint32, sections: seq<Section>)

  datatype Ctx = Ctx(phase: Phase, sizeInPhase: nat, message: Message, totalReceived: nat)

  /** Build and environment: PLT size of the target, bulk-memory build, and whether posting to the queue succeeds. */
  datatype Config = Config(pltSize: uint32, bulkMemory: bool, postOk: bool)

  const EMPTY_MESSAGE := Message(0, 0, 0, 0, 0, 0, [], 0, 0, [])
  const EMPTY_CTX := Ctx(ReqVer, 0, EMPTY_MESSAGE, 0)

  const WASM_MAGIC: seq<byte> := [0x00, 0x61, 0x73, 0x6d]
  const AOT_MAGIC: seq<byte> := [0x00, 0x61, 0x6f, 0x74]
  const WASM_VERSION: seq<byte> := [1, 0, 0, 0]
  const AOT_VERSION: seq<byte> := [3, 0, 0, 0]

  const AOT_TEXT: uint32 := 2
  const AOT_SIGNATURE: uint32 := 6
  const AOT_CUSTOM: uint32 := 100

  function Signed32(v: uint32): int {
    if v < 0x8000_0000 then v else v - 0x1_0000_0000
  }

  function MaxSectionType(cfg: Config): byte {
    if cfg.bulkMemory then 12 else 11
  }

  function Pow128(k: nat): (r: nat)
    ensures r > 0
  {
    if k == 0 then 1 else 128 * Pow128(k - 1)
  }

  /** Size of a text section with its PLT, rounded up to a multiple of four, in 64-bit arithmetic. */
  function PaddedTextSize(cfg: Config, size: nat): nat {
    (size + cfg.pltSize + 3) / 4 * 4
  }

  /** The same computation in 32-bit arithmetic. */
  function PaddedTextSize32(cfg: Config, size: uint32): uint32 {
    (size + cfg.pltSize + 3) % 0x1_0000_0000 / 4 * 4
  }

  /** A complete section as it is kept: text gets its zeroed PLT area. */
  function PadText(cfg: Config, s: Section): Section
  {
    var padded := PaddedTextSize32(cfg, s.size);
    if s.kind == AOT_TEXT && padded > s.size then Section(s.kind, padded, s.body + Zeros(padded - s.size)) else s
  }

  /** Size of the block that the URL is stored in. */
  function UrlBlock(m: Message): nat {
    m.urlLen + 1
  }

  /** Size of the block for the body of a bytecode section: the allocator gives at least one byte. */
  function WasmBlock(s: Section): nat {
    if s.size == 0 then 1 else s.size
  }

  /** Size of the block for the body of an AOT section, a text section's PLT area aside: an empty one has none. */
  function AotBlock(s: Section): nat {
    s.size
  }

  /**
   What every reachable context satisfies. The position is inside the field or block that is being filled, or at the
   end of a block whose announced length is zero.
   */
  predicate Wf(c: Ctx) {
    var m, k := c.message, c.sizeInPhase;
    match c.phase
    case ReqVer | ReqAction | WasmSectionType | Released | Outside => true
    case ReqFmt | ReqUrlLen => k < 2
    case ReqMid | ReqSender | AppMagic | WasmVersion | AotVersion => k < 4
    case ReqPayloadLen => k < 4 && m.url == []
    case ReqUrl => |m.url| == k && (if m.urlLen == 0 then k <= UrlBlock(m) else k < m.urlLen)
    case WasmSectionSize => m.sections != [] && k <= 5 && Last(m).size < Pow128(k) && Last(m).body == []
    case AotSectionId => k < 4 && (k > 0 ==> m.sections != [] && Last(m).body == [])
    case AotSectionSize => m.sections != [] && k < 4 && Last(m).body == []
    case WasmSectionContent =>
      m.sections != [] && |Last(m).body| == k && if Last(m).size == 0 then k <= WasmBlock(Last(m)) else k < Last(m).size
    case AotSectionContent =>
      m.sections != [] && |Last(m).body| == k && if Last(m).size == 0 then k <= AotBlock(Last(m)) else k < Last(m).size
  }

  function Last(m: Message): Section
    requires m.sections != []
  {
    m.sections[|m.sections| - 1]
  }

  function WithLast(m: Message, s: Section): Message
    requires m.sections != []
  {
    m.(sections := m.sections[..|m.sections| - 1] + [s])
  }

  lemma LastReplaced(m: Message, s: Section, t: Section)
    requires m.sections != []
    ensures WithLast(m, s).sections != [] && Last(WithLast(m, s)) == s && WithLast(WithLast(m, s), t) == WithLast(m, t)
    ensures WithLast(m, Last(m)) == m
  {
    assert WithLast(m, s).sections[..|m.sections| - 1] == m.sections[..|m.sections| - 1];
  }

  /** Result of one byte: the new context, the returned flag, and the message handed to the application manager. */
  datatype Outcome = Outcome(ctx: Ctx, ok: bool, handed: seq<Message>)

  function Go(c: Ctx): Outcome {
    Outcome(c, true, [])
  }

  /** The `fail` label: everything received is dropped and the context cleared. */
  const FAIL := Outcome(EMPTY_CTX, false, [])

  /** A store outside its block. */
  function Stray(c: Ctx): Outcome {
    Outcome(c.(phase := Outside), false, [])
  }

  function Enter(c: Ctx, phase: Phase): Ctx {
    c.(phase := phase, sizeInPhase := 0)
  }

  /** After a stored byte of an `n`-byte field: stay, or enter the next phase. */
  function Advance(c: Ctx, n: nat, next: Phase): Ctx {
    if c.sizeInPhase + 1 == n then Enter(c, next) else c.(sizeInPhase := c.sizeInPhase + 1)
  }

  /** `RECV_INTEGER` on a 16-bit field. */
  function Recv16(v: uint16, k: nat, ch: byte): uint16
    requires k < 2
  {
    if k == 1 then Swap16(PutByte16(v, k, ch)) else PutByte16(v, k, ch)
  }

  /** `RECV_INTEGER` on a 32-bit field. */
  function Recv32(v: uint32, k: nat, ch: byte): uint32
    requires k < 4
  {
    if k == 3 then Swap32(PutByte32(v, k, ch)) else PutByte32(v, k, ch)
  }

  /** Counting the byte; the first byte of a request restarts the count. */
  function Count(c: Ctx): Ctx {
    if c.phase == ReqVer then c.(sizeInPhase := 0, totalReceived := 1) else c.(totalReceived := c.totalReceived + 1)
  }

  /** One byte of the request header, the URL or the file magic, on a counted context. */
  function StepHeader(c: Ctx, ch: byte): (o: Outcome)
    requires Wf(c)
    requires c.phase in {ReqVer, ReqAction, ReqFmt, ReqMid, ReqSender, ReqUrlLen, ReqPayloadLen, ReqUrl, AppMagic}
  {
    var m, k := c.message, c.sizeInPhase;
    match c.phase
    case ReqVer => if ch != 1 then Outcome(c, false, []) else Go(c.(phase := ReqAction))
    case ReqAction => Go(Enter(c.(message := m.(action := ch)), ReqFmt))
    case ReqFmt => Go(Advance(c.(message := m.(fmt := Recv16(m.fmt, k, ch))), 2, ReqMid))
    case ReqMid => Go(Advance(c.(message := m.(mid := Recv32(m.mid, k, ch))), 4, ReqSender))
    case ReqSender => Go(Advance(c.(message := m.(sender := Recv32(m.sender, k, ch))), 4, ReqUrlLen))
    case ReqUrlLen =>
      var m' := m.(urlLen := Recv16(m.urlLen, k, ch));
      Go(Advance(c.(message := if k == 1 then m'.(url := []) else m'), 2, ReqPayloadLen))
    case ReqPayloadLen => Go(Advance(c.(message := m.(appSize := Recv32(m.appSize, k, ch))), 4, ReqUrl))
    case ReqUrl =>
      if k >= UrlBlock(m) then Stray(c) else Go(Advance(c.(message := m.(url := m.url + [ch])), m.urlLen, AppMagic))
    case AppMagic =>
      var m' := m.(magic := PutByte32(m.magic, k, ch));
      var c' := c.(message := m');
      if k + 1 < 4 then Go(c'.(sizeInPhase := k + 1))
      else if LE32(m'.magic) == WASM_MAGIC then Go(Enter(c', WasmVersion))
      else if LE32(m'.magic) == AOT_MAGIC then Go(Enter(c', AotVersion))
      else FAIL
  }

  /** A section body is complete: hand the message over on the last byte of the request, else go on. */
  function SectionDone(cfg: Config, c: Ctx, total: nat, next: Phase): Outcome {
    if c.totalReceived == total then
      if cfg.postOk then Outcome(EMPTY_CTX, true, [c.message])
      else Outcome(c.(phase := Released, sizeInPhase := c.sizeInPhase + 1), false, [])
    else Go(Enter(c, next))
  }

  /** One byte of a version field: it must match. */
  function StepVersion(c: Ctx, ch: byte, expected: seq<byte>, next: Phase): Outcome
    requires c.sizeInPhase < 4 && |expected| == 4
  {
    if ch != expected[c.sizeInPhase] then FAIL
    else Go(Advance(c.(message := c.message.(version := PutByte32(c.message.version, c.sizeInPhase, ch))), 4, next))
  }

  /** One byte of the sections of a bytecode file, on a counted context. */
  function StepWasm(cfg: Config, c: Ctx, ch: byte, total: nat): (o: Outcome)
    requires Wf(c)
    requires c.phase in {WasmVersion, WasmSectionType, WasmSectionSize, WasmSectionContent}
  {
    var m, k := c.message, c.sizeInPhase;
    match c.phase
    case WasmVersion => StepVersion(c, ch, WASM_VERSION, WasmSectionType)
    case WasmSectionType =>
      if ch > MaxSectionType(cfg) then FAIL
      else Go(Enter(c.(message := m.(sections := m.sections + [Section(ch, 0, [])])), WasmSectionSize))
    case WasmSectionSize =>
      if k + 1 > 5 then FAIL
      else
        var s := Last(m);
        Pow128Values();
        // the new group and the bits so far are disjoint, so `|=` adds
        var c' := c.(message := WithLast(m, s.(size := s.size + ch % 128 * Pow128(k) % 0x1_0000_0000)),
                     sizeInPhase := k + 1);
        Go(if ch < 128 then Enter(c', WasmSectionContent) else c')
    case WasmSectionContent =>
      var s := Last(m);
      var c' := c.(message := WithLast(m, s.(body := s.body + [ch])));
      if k >= WasmBlock(s) then Stray(c)
      else if k + 1 == s.size then SectionDone(cfg, c', total, WasmSectionType)
      else Go(c'.(sizeInPhase := k + 1))
  }

  lemma Pow128Values()
    ensures Pow128(0) == 1 && Pow128(1) == 0x80 && Pow128(2) == 0x4000 && Pow128(3) == 0x20_0000
            && Pow128(4) == 0x1000_0000
    ensures Pow128(5) == 0x8_0000_0000
  {
    assert Pow128(2) == 128 * Pow128(1);
    assert Pow128(4) == 128 * Pow128(3);
  }

  /** Offset in the AOT file of the byte just counted. */
  function FileOffset(c: Ctx): int {
    c.totalReceived - 1 - 18 - c.message.urlLen
  }

  predicate KnownAotSection(kind: uint32) {
    Signed32(kind) < AOT_SIGNATURE || kind == AOT_CUSTOM
  }

  /** One byte of the sections of an AOT file, on a counted context. */
  function StepAot(cfg: Config, c: Ctx, ch: byte, total: nat): (o: Outcome)
    requires Wf(c)
    requires c.phase in {AotVersion, AotSectionId, AotSectionSize, AotSectionContent}
  {
    var m, k := c.message, c.sizeInPhase;
    match c.phase
    case AotVersion => StepVersion(c, ch, AOT_VERSION, AotSectionId)
    case AotSectionId =>
      if k == 0 && FileOffset(c) % 4 != 0 then Go(c)
      else
        var m' := if k == 0 then m.(sections := m.sections + [Section(0, 0, [])]) else m;
        var s := Last(m').(kind := PutByte32(Last(m').kind, k, ch));
        var c' := c.(message := WithLast(m', s));
        if k + 1 < 4 then Go(c'.(sizeInPhase := k + 1))
        else if KnownAotSection(s.kind) then Go(Enter(c', AotSectionSize))
        else FAIL
    case AotSectionSize =>
      var s := Last(m).(size := PutByte32(Last(m).size, k, ch));
      var c' := c.(message := WithLast(m, s));
      if k + 1 < 4 then Go(c'.(sizeInPhase := k + 1))
      else if s.size > 0 && s.kind == AOT_TEXT && PaddedTextSize(cfg, s.size) >= UINT32_MAX then FAIL
      else Go(Enter(c', AotSectionContent))
    case AotSectionContent =>
      var s := Last(m).(body := Last(m).body + [ch]);
      if k >= AotBlock(s) then Stray(c)
      else if k + 1 == s.size then SectionDone(cfg, c.(message := WithLast(m, PadText(cfg, s))), total, AotSectionId)
      else Go(c.(message := WithLast(m, s), sizeInPhase := k + 1))
  }

  /** `wasm_app_module_on_install_request_byte_arrive`. */
  function Step(cfg: Config, c0: Ctx, ch: byte, total: nat): (o: Outcome)
    requires Wf(c0)
  {
    var c := Count(c0);
    match c.phase
    case WasmVersion | WasmSectionType | WasmSectionSize | WasmSectionContent => StepWasm(cfg, c, ch, total)
    case AotVersion | AotSectionId | AotSectionSize | AotSectionContent => StepAot(cfg, c, ch, total)
    case Released | Outside => Stray(c)
    case _ => StepHeader(c, ch)
  }

  lemma StepWasmKeepsWf(cfg: Config, c: Ctx, ch: byte, total: nat)
    requires Wf(c) && c.phase in {WasmVersion, WasmSectionType, WasmSectionSize, WasmSectionContent}
    ensures Wf(StepWasm(cfg, c, ch, total).ctx)
  {
    hide PutByte32;
    Pow128Values();
  }

  lemma StepAotKeepsWf(cfg: Config, c: Ctx, ch: byte, total: nat)
    requires Wf(c) && c.phase in {AotVersion, AotSectionId, AotSectionSize, AotSectionContent}
    ensures Wf(StepAot(cfg, c, ch, total).ctx)
  {
    hide PutByte32, PaddedTextSize, PaddedTextSize32;
  }

  /** Every byte keeps the context well formed. */
  lemma StepKeepsWf(cfg: Config, c: Ctx, ch: byte, total: nat)
    requires Wf(c)
    ensures Wf(Step(cfg, c, ch, total).ctx)
  {
    hide StepWasm, StepAot, Recv16, Recv32, PutByte32, LE32;
    var c' := Count(c);
    if c'.phase in {WasmVersion, WasmSectionType, WasmSectionSize, WasmSectionContent} {
      StepWasmKeepsWf(cfg, c', ch, total);
    } else if c'.phase in {AotVersion, AotSectionId, AotSectionSize, AotSectionContent} {
      StepAotKeepsWf(cfg, c', ch, total);
    }
  }

  /** The static receive context, with the queue that complete messages are posted to. */
  class InstallReceiver {
    const cfg: Config
    var phase: Phase
    var sizeInPhase: nat
    var message: Message
    var totalReceived: nat
    var posted: seq<Message>

    ghost function Context(): Ctx
      reads this
    {
      Ctx(phase, sizeInPhase, message, totalReceived)
    }

    constructor (cfg: Config)
      ensures this.cfg == cfg && Context() == EMPTY_CTX && posted == []
    {
      this.cfg := cfg;
      phase, sizeInPhase, message, totalReceived := ReqVer, 0, EMPTY_MESSAGE, 0;
      posted := [];
    }

    /** `memset(&recv_ctx, 0, sizeof(recv_ctx))`. */
    method Clear()
      modifies this
      ensures Context() == EMPTY_CTX && posted == old(posted)
    {
      phase, sizeInPhase, message, totalReceived := ReqVer, 0, EMPTY_MESSAGE, 0;
    }

    method NextPhase(next: Phase)
      modifies this`phase, this`sizeInPhase
      ensures phase == next && sizeInPhase == 0
    {
      phase := next;
      sizeInPhase := 0;
    }

    method ByteArrive(ch: byte, total: nat) returns (ok: bool, receivedSize: nat)
      requires Wf(Context())
      modifies this
      ensures Wf(Context())
      ensures var o := Step(cfg, old(Context()), ch, total);
              Context() == o.ctx && ok == o.ok && posted == old(posted) + o.handed
      ensures receivedSize == Count(old(Context())).totalReceived
    {
      hide StepWasm, StepAot, StepHeader;
      StepKeepsWf(cfg, Context(), ch, total);
      if phase == ReqVer {
        sizeInPhase := 0;
        totalReceived := 0;
      }
      totalReceived := totalReceived + 1;
      receivedSize := totalReceived;
      if phase in {WasmVersion, WasmSectionType, WasmSectionSize, WasmSectionContent} {
        ok := WasmByte(ch, total);
      } else if phase in {AotVersion, AotSectionId, AotSectionSize, AotSectionContent} {
        ok := AotByte(ch, total);
      } else if phase in {Released, Outside} {
        ok := StrayByte();
      } else {
        ok := HeaderByte(ch);
      }
    }

    /** A byte that has no place in its block. */
    method StrayByte() returns (ok: bool)
      modifies this`phase
      ensures var o := Stray(old(Context())); Context() == o.ctx && ok == o.ok && o.handed == []
    {
      phase := Outside;
      ok := false;
    }

    method HeaderByte(ch: byte) returns (ok: bool)
      requires Wf(Context())
      requires phase in {ReqVer, ReqAction, ReqFmt, ReqMid, ReqSender, ReqUrlLen, ReqPayloadLen, ReqUrl, AppMagic}
      modifies this
      ensures posted == old(posted)
      ensures var o := StepHeader(old(Context()), ch); Context() == o.ctx && ok == o.ok && o.handed == []
    {
      hide LE32, PutByte32, Swap32, PutByte16, Swap16;
      ok := true;
      var k := sizeInPhase;
      match phase {
        case ReqVer =>
          if ch != 1 {
            return false;
          }
          phase := ReqAction;
        case ReqAction =>
          message := message.(action := ch);
          NextPhase(ReqFmt);
        case ReqFmt =>
          message := message.(fmt := PutByte16(message.fmt, k, ch));
          sizeInPhase := k + 1;
          if sizeInPhase == 2 {
            message := message.(fmt := Swap16(message.fmt));
            NextPhase(ReqMid);
          }
        case ReqMid =>
          message := message.(mid := PutByte32(message.mid, k, ch));
          sizeInPhase := k + 1;
          if sizeInPhase == 4 {
            message := message.(mid := Swap32(message.mid));
            NextPhase(ReqSender);
          }
        case ReqSender =>
          message := message.(sender := PutByte32(message.sender, k, ch));
          sizeInPhase := k + 1;
          if sizeInPhase == 4 {
            message := message.(sender := Swap32(message.sender));
            NextPhase(ReqUrlLen);
          }
        case ReqUrlLen =>
          message := message.(urlLen := PutByte16(message.urlLen, k, ch));
          sizeInPhase := k + 1;
          if sizeInPhase == 2 {
            message := message.(urlLen := Swap16(message.urlLen));
            message := message.(url := []);
            NextPhase(ReqPayloadLen);
          }
        case ReqPayloadLen =>
          message := message.(appSize := PutByte32(message.appSize, k, ch));
          sizeInPhase := k + 1;
          if sizeInPhase == 4 {
            message := message.(appSize := Swap32(message.appSize));
            NextPhase(ReqUrl);
          }
        case ReqUrl =>
          if k >= UrlBlock(message) {
            ok := StrayByte();
            return;
          }
          message := message.(url := message.url + [ch]);
          sizeInPhase := k + 1;
          if sizeInPhase == message.urlLen {
            NextPhase(AppMagic);
          }
        case AppMagic =>
          message := message.(magic := PutByte32(message.magic, k, ch));
          sizeInPhase := k + 1;
          if sizeInPhase == 4 {
            if LE32(message.magic) == WASM_MAGIC {
              NextPhase(WasmVersion);
            } else if LE32(message.magic) == AOT_MAGIC {
              NextPhase(AotVersion);
            } else {
              Clear();
              ok := false;
            }
          }
      }
    }

    /** A section body is complete. */
    method CompleteSection(total: nat, next: Phase) returns (ok: bool)
      requires sizeInPhase > 0
      modifies this
      ensures var o := SectionDone(cfg, old(Context()).(sizeInPhase := old(sizeInPhase) - 1), total, next);
              Context() == o.ctx && ok == o.ok && posted == old(posted) + o.handed
    {
      ok := true;
      if totalReceived == total {
        if cfg.postOk {
          posted := posted + [message];
          Clear();
        } else {
          phase := Released;
          ok := false;
        }
      } else {
        NextPhase(next);
      }
    }

    method WasmByte(ch: byte, total: nat) returns (ok: bool)
      requires Wf(Context())
      requires phase in {WasmVersion, WasmSectionType, WasmSectionSize, WasmSectionContent}
      modifies this
      ensures var o := StepWasm(cfg, old(Context()), ch, total);
              Context() == o.ctx && ok == o.ok && posted == old(posted) + o.handed
    {
      hide PutByte32;
      ok := true;
      var k := sizeInPhase;
      match phase {
        case WasmVersion =>
          ok := VersionByte(ch, WASM_VERSION, WasmSectionType);
        case WasmSectionType =>
          if ch <= MaxSectionType(cfg) {
            message := message.(sections := message.sections + [Section(ch, 0, [])]);
            NextPhase(WasmSectionSize);
          } else {
            Clear();
            ok := false;
          }
        case WasmSectionSize =>
          sizeInPhase := k + 1;
          if sizeInPhase > 5 {
            Clear();
            return false;
          }
          Pow128Values();
          var s := Last(message);
          message := WithLast(message, s.(size := s.size + ch % 128 * Pow128(k) % 0x1_0000_0000));
          if ch < 128 {
            NextPhase(WasmSectionContent);
          }
        case WasmSectionContent =>
          var s := Last(message);
          if k >= WasmBlock(s) {
            ok := StrayByte();
            return;
          }
          message := WithLast(message, s.(body := s.body + [ch]));
          sizeInPhase := k + 1;
          if sizeInPhase == s.size {
            ok := CompleteSection(total, WasmSectionType);
          }
      }
    }

    method VersionByte(ch: byte, expected: seq<byte>, next: Phase) returns (ok: bool)
      requires sizeInPhase < 4 && |expected| == 4
      modifies this
      ensures posted == old(posted)
      ensures var o := StepVersion(old(Context()), ch, expected, next);
              Context() == o.ctx && ok == o.ok && o.handed == []
    {
      if ch == expected[sizeInPhase] {
        message := message.(version := PutByte32(message.version, sizeInPhase, ch));
        sizeInPhase := sizeInPhase + 1;
        if sizeInPhase == 4 {
          NextPhase(next);
        }
        ok := true;
      } else {
        Clear();
        ok := false;
      }
    }

    method AotByte(ch: byte, total: nat) returns (ok: bool)
      requires Wf(Context())
      requires phase in {AotVersion, AotSectionId, AotSectionSize, AotSectionContent}
      modifies this
      ensures var o := StepAot(cfg, old(Context()), ch, total);
              Context() == o.ctx && ok == o.ok && posted == old(posted) + o.handed
    {
      hide PutByte32, PaddedTextSize, PaddedTextSize32;
      ok := true;
      var k := sizeInPhase;
      match phase {
        case AotVersion =>
          ok := VersionByte(ch, AOT_VERSION, AotSectionId);
        case AotSectionId =>
          if k == 0 {
            // skip paddings
            if (totalReceived - 1 - 18 - message.urlLen) % 4 != 0 {
              return;
            }
            message := message.(sections := message.sections + [Section(0, 0, [])]);
          }
          var s := Last(message);
          message := WithLast(message, s.(kind := PutByte32(s.kind, k, ch)));
          sizeInPhase := k + 1;
          if sizeInPhase == 4 {
            if KnownAotSection(Last(message).kind) {
              NextPhase(AotSectionSize);
            } else {
              Clear();
              ok := false;
            }
          }
        case AotSectionSize =>
          var s := Last(message);
          message := WithLast(message, s.(size := PutByte32(s.size, k, ch)));
          sizeInPhase := k + 1;
          if sizeInPhase == 4 {
            s := Last(message);
            if s.size > 0 && s.kind == AOT_TEXT && PaddedTextSize(cfg, s.size) >= UINT32_MAX {
              Clear();
              return false;
            }
            NextPhase(AotSectionContent);
          }
        case AotSectionContent =>
          var s := Last(message);
          if k >= AotBlock(s) {
            ok := StrayByte();
            return;
          }
          message := WithLast(message, s.(body := s.body + [ch]));
          sizeInPhase := k + 1;
          if sizeInPhase == s.size {
            message := WithLast(message, PadText(cfg, Last(message)));
            ok := CompleteSection(total, AotSectionId);
          }
      }
    }
  }
}
