/**
 The link with the application installer behind it: the receive context that app_manager_host.c keeps, and install
 requests from the wire to the application manager's queue.
 */
module HostLink {
  import opened Bytes
  import Install
  import Reception
  import Bytecode
  import AotFile
  import Packets
  import Payloads
  import Streaming
  import opened Link

  /** The installer's receive context and the messages it has posted. */
  datatype AppState = AppState(ctx: Install.Ctx, posted: seq<Install.Message>)

  /** `wasm_app_module_on_install_request_byte_arrive` as the link sees it. */
  function AppArrive(cfg: Install.Config, s: AppState, ch: byte, total: nat): Arrival<AppState> {
    if Install.Wf(s.ctx) then
      var o := Install.Step(cfg, s.ctx, ch, total);
      var t := AppState(o.ctx, s.posted + o.handed);
      if o.ctx.phase == Install.Outside then Lost(t) else Arrival(t, o.ok, Install.Count(s.ctx).totalReceived)
    else Arrival(s, false, 0)
  }

  function AppInstaller(cfg: Install.Config): Installer<AppState> {
    Installer((s: AppState, ch: byte, total: nat) => AppArrive(cfg, s, ch, total))
  }

  /** A frame leaves in two writes: the eight-byte header, whose size field is swapped in place, then the payload. */
  method SendMsg(m: Msg) returns (sent: seq<byte>)
    requires |m.payload| < 0x8000_0000
    ensures sent == Frame(m)
  {
    var header := new byte[16];
    header[0], header[1] := LEADING0, LEADING1;
    var t := BE16(m.msgType);
    header[2], header[3] := t[0], t[1];
    var size := new byte[4];
    var image := LE32(|m.payload|);
    size[0], size[1], size[2], size[3] := image[0], image[1], image[2], image[3];
    Exchange32(size);
    header[4], header[5], header[6], header[7] := size[0], size[1], size[2], size[3];
    assert header[..8] == FrameHead(m);
    sent := header[..8] + m.payload;
  }

  /** `exchange32`. */
  method Exchange32(p: array<byte>)
    requires p.Length == 4
    modifies p
    ensures p[0] == old(p[3]) && p[1] == old(p[2]) && p[2] == old(p[1]) && p[3] == old(p[0])
  {
    var value := p[0];
    p[0] := p[3];
    p[3] := value;
    value := p[1];
    p[1] := p[2];
    p[2] := value;
  }

  /** The static receive context of the link, its installer, and a record of what the callback produced. */
  class Host {
    const installer: Install.InstallReceiver
    var phase: Phase
    var msgType: uint16
    var payloadSize: uint32
    var payload: Option<seq<byte>>
    var sizeInPhase: nat
    var received: seq<Msg>
    var dispatched: seq<Packets.Request>

    ghost function Context(): Ctx<AppState>
      reads this, installer
    {
      Ctx(phase, msgType, payloadSize, payload, sizeInPhase, AppState(installer.Context(), installer.posted))
    }

    ghost predicate Valid()
      reads this, installer
    {
      Wf(Context()) && Install.Wf(installer.Context())
    }

    ghost function Behind(): Installer<AppState> {
      AppInstaller(installer.cfg)
    }

    constructor (installer: Install.InstallReceiver)
      requires Install.Wf(installer.Context())
      ensures this.installer == installer && Valid() && received == [] && dispatched == []
      ensures Context() == Cleared(AppState(installer.Context(), installer.posted))
    {
      this.installer := installer;
      phase, msgType, payloadSize, payload, sizeInPhase := NonStart, 0, 0, None, 0;
      received, dispatched := [], [];
    }

    method Clear()
      modifies this
      ensures Context() == Cleared(old(Context()).installer) && received == old(received)
              && dispatched == old(dispatched)
    {
      phase, msgType, payloadSize, payload, sizeInPhase := NonStart, 0, 0, None, 0;
    }

    /** `on_imrt_link_byte_arrive`. */
    method ByteArrive(ch: byte) returns (complete: bool)
      requires Valid()
      modifies this, installer
      ensures Valid() && received == old(received) && dispatched == old(dispatched)
      ensures Arrive(Behind(), old(Context()), ch) == Outcome(Context(), complete)
    {
      hide Install.Step, Install.Wf, PutByte32, LE16, LE32, FromLE16, FromLE32, Or8, Swap32, Swap16;
      complete := false;
      match phase {
        case NonStart =>
          payloadSize := 0;
          payload := None;
          if ch == LEADING0 {
            phase := Leading;
          }
        case Leading =>
          phase := if ch == LEADING1 then Type else NonStart;
        case Type =>
          sizeInPhase := sizeInPhase + 1;
          if sizeInPhase == 1 {
            msgType := ch;
          } else {
            msgType := FromLE16([LE16(msgType)[0], Or8(LE16(msgType)[1], ch)]);
            msgType := Swap16(msgType);
            phase := Size;
            sizeInPhase := 0;
          }
        case Size =>
          payloadSize := PutByte32(payloadSize, sizeInPhase, ch);
          sizeInPhase := sizeInPhase + 1;
          if sizeInPhase == 4 {
            payloadSize := Swap32(payloadSize);
            payload := None;
            if payloadSize == 0 {
              phase := NonStart;
              return true;
            }
            if msgType != INSTALL_WASM_APP {
              payload := Some([]);
            }
            phase := Payload;
            sizeInPhase := 0;
          }
        case Payload =>
          if msgType == INSTALL_WASM_APP {
            complete := InstallByte(ch);
          } else {
            payload := Some(payload.value + [ch]);
            sizeInPhase := sizeInPhase + 1;
            if sizeInPhase == payloadSize {
              phase := NonStart;
              complete := true;
            }
          }
        case Ignoring =>
          sizeInPhase := sizeInPhase + 1;
          if sizeInPhase == payloadSize {
            Clear();
          }
        case Outside =>
      }
    }

    /** One byte of an install payload. */
    method InstallByte(ch: byte) returns (complete: bool)
      requires Valid() && phase == Payload && msgType == INSTALL_WASM_APP
      modifies this, installer
      ensures Valid() && received == old(received) && dispatched == old(dispatched)
      ensures Arrive(Behind(), old(Context()), ch) == Outcome(Context(), complete)
    {
      hide Install.Step, Install.Wf;
      sizeInPhase := sizeInPhase + 1;
      var ok, receivedSize := installer.ByteArrive(ch, payloadSize);
      complete := false;
      if installer.phase == Install.Outside {
        phase := Outside;
      } else if ok {
        if receivedSize == payloadSize {
          phase := NonStart;
          complete := true;
        }
      } else if sizeInPhase < payloadSize {
        phase := Ignoring;
      } else {
        phase := NonStart;
        sizeInPhase := 0;
      }
    }

    /** `aee_host_msg_callback`. */
    method MsgCallback(chunk: seq<byte>)
      requires Valid()
      modifies this, installer
      ensures Valid()
      ensures var r := Feed(Behind(), old(Context()), chunk);
              Context() == r.ctx && received == old(received) + r.received
                && dispatched == old(dispatched) + r.dispatched
    {
      hide Install.Step, Install.Wf, Arrive, Feed, Wf, Callback, Unpack;
      var p := 0;
      FeedNil(Behind(), Context());
      assert chunk[..0] == [];
      while p < |chunk|
        invariant p <= |chunk| && Valid()
        invariant var r := Feed(Behind(), old(Context()), chunk[..p]);
                  Context() == r.ctx && received == old(received) + r.received
                    && dispatched == old(dispatched) + r.dispatched
      {
        ghost var before := Context();
        OneByte(chunk[p]);
        assert chunk[..p + 1] == chunk[..p] + [chunk[p]];
        FeedConcat(Behind(), old(Context()), chunk[..p], [chunk[p]]);
        FeedOne(Behind(), before, chunk[p]);
        p := p + 1;
      }
      assert chunk[..p] == chunk;
    }

    /** The body of the callback's loop. */
    method OneByte(ch: byte)
      requires Valid()
      modifies this, installer
      ensures Valid()
      ensures var r := Callback(Behind(), old(Context()), ch);
              Context() == r.ctx && received == old(received) + r.received
                && dispatched == old(dispatched) + r.dispatched
    {
      hide Install.Step, Install.Wf, Arrive, Unpack;
      var complete := ByteArrive(ch);
      if complete {
        received := received + [Msg(msgType, if payload == None then [] else payload.value)];
        if payload != None {
          if msgType == REQUEST_PACKET {
            match Unpack(payload.value) {
              case Rejected =>
                return;
              case PastEnd =>
                phase := Outside;
                return;
              case Accepted(request) =>
                dispatched := dispatched + [request];
            }
          }
        }
        Clear();
      }
    }
  }

  // The installer behind the link

  /** The application installer reports its running byte count on every payload. */
  lemma {:induction false} AppReportsCount(cfg: Install.Config, s: AppState, bs: seq<byte>, total: nat, done: nat)
    requires Reception.Counting(s.ctx, done) && cfg.postOk && done + |bs| == total
    ensures ReportsCount(AppInstaller(cfg), s, bs, total, done)
    decreases bs
  {
    hide Install.Step, Install.Wf;
    if bs != [] {
      Reception.StepCounts(cfg, s.ctx, bs[0], total, done);
      var a := AppArrive(cfg, s, bs[0], total);
      assert AppInstaller(cfg).arrive(s, bs[0], total) == a;
      if a.Arrival? && a.ok && |bs| > 1 {
        AppReportsCount(cfg, a.state, bs[1..], total, done + 1);
      }
    }
  }

  /**
   Fed through the link, the installer does what it does on its own, and stays inside its memory exactly as it does
   then.
   */
  lemma {:induction false} AppFollowsFeed(cfg: Install.Config, s: AppState, bs: seq<byte>, total: nat)
    requires Install.Wf(s.ctx) && s.ctx.phase != Install.Outside
    ensures var r := Reception.Feed(cfg, s.ctx, bs, total);
            && (AcceptsAll(AppInstaller(cfg), s, bs, total) <==> r.ok)
            && (StaysInside(AppInstaller(cfg), s, bs, total) <==> r.ctx.phase != Install.Outside)
            && StateAfter(AppInstaller(cfg), s, bs, total) == AppState(r.ctx, s.posted + r.handed)
    decreases bs
  {
    hide Install.Step, Install.Wf;
    if bs == [] {
      assert s.posted + [] == s.posted;
    } else {
      Install.StepKeepsWf(cfg, s.ctx, bs[0], total);
      Reception.StepGoes(cfg, s.ctx, bs[0], total);
      var a := AppArrive(cfg, s, bs[0], total);
      assert AppInstaller(cfg).arrive(s, bs[0], total) == a;
      var o := Install.Step(cfg, s.ctx, bs[0], total);
      if o.ok {
        AppFollowsFeed(cfg, a.state, bs[1..], total);
        var r := Reception.Feed(cfg, a.state.ctx, bs[1..], total);
        assert s.posted + o.handed + r.handed == s.posted + (o.handed + r.handed);
      }
    }
  }

  /** A link between frames whose installer is between requests. */
  predicate Quiet(l: Ctx<AppState>) {
    Wf(l) && Idle(l) && Reception.Idle(l.installer.ctx)
  }

  /** A request that the receiver hands over arrives in the queue, and the link is ready for the next frame. */
  lemma RequestPosted(cfg: Install.Config, l: Ctx<AppState>, request: seq<byte>, m: Install.Message)
    requires Quiet(l) && cfg.postOk && 0 < |request| < 0x8000_0000
    requires Install.Wf(l.installer.ctx) && Reception.HandedOnLastByte(cfg, l.installer.ctx, request, m)
    ensures Feed(AppInstaller(cfg), l, Frame(Msg(INSTALL_WASM_APP, request))) ==
            Run(Cleared(AppState(Install.EMPTY_CTX, l.installer.posted + [m])), [Msg(INSTALL_WASM_APP, [])], [])
  {
    hide Install.Step, Feed, Frame, Reception.Feed;
    AppReportsCount(cfg, l.installer, request, |request|, 0);
    AppFollowsFeed(cfg, l.installer, request, |request|);
    InstallFrame(AppInstaller(cfg), l, request);
  }

  /** End to end for bytecode: from the frame on the wire to the queue. */
  lemma BytecodeInstalled(cfg: Install.Config, l: Ctx<AppState>, h: Reception.Header, ss: seq<Bytecode.SentSection>)
    requires Quiet(l) && cfg.postOk && 0 < |h.url| < 0x1_0000
    requires Bytecode.AllSendable(cfg, ss) && ss != [] && Bytecode.NonEmpty(ss)
             && |Bytecode.Request(cfg, h, ss)| < 0x8000_0000
    ensures Feed(AppInstaller(cfg), l, Frame(Msg(INSTALL_WASM_APP, Bytecode.Request(cfg, h, ss)))) ==
            Run(Cleared(AppState(Install.EMPTY_CTX, l.installer.posted + [Bytecode.Intended(cfg, h, ss)])),
                [Msg(INSTALL_WASM_APP, [])], [])
  {
    hide Install.Step, Feed, Frame, Reception.Feed, Reception.HandedOnLastByte;
    Bytecode.RebuiltExactlyWhen(cfg, l.installer.ctx, h, ss);
    RequestPosted(cfg, l, Bytecode.Request(cfg, h, ss), Bytecode.Intended(cfg, h, ss));
  }

  /** End to end for AOT files: the queue gets the list that `create_sections` would build. */
  lemma AotInstalled(cfg: Install.Config, l: Ctx<AppState>, h: Reception.Header, buf: seq<byte>,
                     list: seq<Install.Section>)
    requires Quiet(l) && cfg.postOk && 0 < |h.url| < 0x1_0000
    requires Streaming.IsAot(buf) && |Streaming.Request(h, buf)| < 0x8000_0000
    requires AotFile.CreatedSections(cfg, buf) == Some(list) && AotFile.NativeSymbols(buf, 8) == Some(0)
    requires Streaming.NonEmpty(list)
    ensures Feed(AppInstaller(cfg), l, Frame(Msg(INSTALL_WASM_APP, Streaming.Request(h, buf)))) ==
            Run(Cleared(AppState(Install.EMPTY_CTX, l.installer.posted + [Streaming.Intended(h, list)])),
                [Msg(INSTALL_WASM_APP, [])], [])
  {
    hide Install.Step, Feed, Frame, Reception.Feed, Reception.HandedOnLastByte, AotFile.CreatedSections,
         AotFile.NativeSymbols;
    Streaming.StreamRefinesBatch(cfg, l.installer.ctx, h, buf, list);
    RequestPosted(cfg, l, Streaming.Request(h, buf), Streaming.Intended(h, list));
  }

  /** The header that describes a packed request whose payload is an application file; its URL keeps the terminator. */
  function HeaderOf(r: Packets.Request): (h: Reception.Header)
    requires Packets.RequestInRange(r)
    ensures 0 < |h.url| < 0x1_0000
  {
    Reception.Header(r.action, r.fmt, r.mid, r.sender, |r.payload|, r.url + [0])
  }

  /** What `pack_request` writes is what the install receiver reads: header, URL with terminator, file. */
  lemma PackedLayout(r: Packets.Request)
    requires Packets.RequestInRange(r)
    ensures Packets.RequestImage(r) == Streaming.Request(HeaderOf(r), r.payload)
  {
    hide BE16, BE32;
    var h := HeaderOf(r);
    assert Packets.RequestImage(r) == Reception.FixedPart(h) + h.url + r.payload;
  }

  /**
   From one side to the other: an AOT file packed with `pack_request` and sent as an install frame ends up in the queue
   with the section list that `create_sections` builds from the file.
   */
  lemma PackedAotInstalled(cfg: Install.Config, l: Ctx<AppState>, r: Packets.Request, list: seq<Install.Section>)
    requires Quiet(l) && cfg.postOk && Packets.RequestInRange(r)
    requires Streaming.IsAot(r.payload)
    requires AotFile.CreatedSections(cfg, r.payload) == Some(list) && AotFile.NativeSymbols(r.payload, 8) == Some(0)
    requires Streaming.NonEmpty(list)
    ensures Feed(AppInstaller(cfg), l, Frame(Msg(INSTALL_WASM_APP, Packets.RequestImage(r)))) ==
            Run(Cleared(AppState(Install.EMPTY_CTX, l.installer.posted + [Streaming.Intended(HeaderOf(r), list)])),
                [Msg(INSTALL_WASM_APP, [])], [])
  {
    hide Install.Step, Feed, Frame, AotFile.CreatedSections, AotFile.NativeSymbols, Packets.RequestImage,
         Streaming.Request;
    PackedLayout(r);
    AotInstalled(cfg, l, HeaderOf(r), r.payload, list);
  }

  /** What a reading of an install payload promises of the frame. */
  ghost predicate Installs(l: Ctx<AppState>, reading: Payloads.Reading<Install.Message>, r: Run<AppState>) {
    var was, now := l.installer, r.ctx.installer;
    r.dispatched == [] &&
    match reading
    case Whole(m) =>
      r.ctx == Cleared(AppState(Install.EMPTY_CTX, was.posted + [m])) && r.received == [Msg(INSTALL_WASM_APP, [])]
    case Cut =>
      && r.ctx == Cleared(now) && now.posted == was.posted && Reception.Busy(now.ctx)
      && r.received == [Msg(INSTALL_WASM_APP, [])]
    case Refused =>
      Resynchronised(r.ctx) && now.posted == was.posted && Reception.Idle(now.ctx) && r.received == []
    case Astray => r.ctx.phase == Outside && r.received == []
  }

  /** A frame can end in only one of these ways. */
  lemma InstallsOnce(l: Ctx<AppState>, a: Payloads.Reading<Install.Message>, b: Payloads.Reading<Install.Message>,
                     r: Run<AppState>)
    requires Installs(l, a, r) && Installs(l, b, r)
    ensures a == b
  {
    var posted := l.installer.posted;
    if a.Whole? && b.Whole? {
      assert (posted + [a.value])[|posted|] == (posted + [b.value])[|posted|];
    }
  }

  /**
   Any install payload at all, from a quiet link. An application is posted if and only if it is what the bytes, taken
   apart record by record, read as; one completion is reported and the link is cleared. Bytes that end inside a request
   leave the installer inside it, and refused ones leave it idle and unreported; either way the link is between frames
   again. All this unless a byte has no room in its block: then nothing is received and C says nothing of what follows.
   */
  lemma AnyInstallPayload(cfg: Install.Config, l: Ctx<AppState>, bs: seq<byte>)
    requires Quiet(l) && cfg.postOk && 0 < |bs| < 0x8000_0000
    ensures var r := Feed(AppInstaller(cfg), l, Frame(Msg(INSTALL_WASM_APP, bs)));
            forall reading :: Installs(l, reading, r) <==> Payloads.Read(cfg, bs) == reading
  {
    hide Install.Step, Feed, Frame, AcceptsAll, StateAfter, StaysInside, Reception.Feed, Payloads.Read, Installs;
    var r := Feed(AppInstaller(cfg), l, Frame(Msg(INSTALL_WASM_APP, bs)));
    PayloadInstalls(cfg, l, bs);
    forall reading | Installs(l, reading, r) ensures Payloads.Read(cfg, bs) == reading {
      InstallsOnce(l, reading, Payloads.Read(cfg, bs), r);
    }
  }

  lemma PayloadInstalls(cfg: Install.Config, l: Ctx<AppState>, bs: seq<byte>)
    requires Quiet(l) && cfg.postOk && 0 < |bs| < 0x8000_0000
    ensures Installs(l, Payloads.Read(cfg, bs), Feed(AppInstaller(cfg), l, Frame(Msg(INSTALL_WASM_APP, bs))))
  {
    hide Install.Step, Feed, Frame, AcceptsAll, StateAfter, StaysInside, Reception.Feed, Payloads.Read;
    Payloads.ReceivedAsRead(cfg, l.installer.ctx, bs);
    AppFollowsFeed(cfg, l.installer, bs, |bs|);
    AppReportsCount(cfg, l.installer, bs, |bs|, 0);
    InstallFrame(AppInstaller(cfg), l, bs);
    assert l.installer.posted + [] == l.installer.posted;
  }

  /** Behind such a frame everything is handled as from the initial state, whatever the payload was. */
  lemma InstallResynchronises(cfg: Install.Config, l: Ctx<AppState>, bs: seq<byte>, more: seq<byte>)
    requires Quiet(l) && cfg.postOk && 0 < |bs| < 0x8000_0000 && Payloads.Read(cfg, bs) != Payloads.Astray
    ensures var inst := AppInstaller(cfg);
            var r := Feed(inst, l, Frame(Msg(INSTALL_WASM_APP, bs)) + more);
            var t := Feed(inst, Cleared(StateAfter(inst, l.installer, bs, |bs|)), more);
            var done := if AcceptsAll(inst, l.installer, bs, |bs|) then [Msg(INSTALL_WASM_APP, [])] else [];
            r.received == done + t.received && r.dispatched == t.dispatched && Alike(r.ctx, t.ctx)
  {
    hide Install.Step, Feed, Frame, AcceptsAll, StateAfter, StaysInside, Reception.Feed, Payloads.Read, Alike;
    Payloads.ReceivedAsRead(cfg, l.installer.ctx, bs);
    AppFollowsFeed(cfg, l.installer, bs, |bs|);
    AppReportsCount(cfg, l.installer, bs, |bs|, 0);
    Resynchronises(AppInstaller(cfg), l, bs, more);
  }
}
