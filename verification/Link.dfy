/**
 The host link: core/app-mgr/app-manager/app_manager_host.c. Frames are two leading bytes, a message type and a payload
 size in network order, and the payload. Install payloads go byte by byte to an installer, which is a parameter here.
 */
module Link {
  import opened Bytes
  import Modules
  import Packets

  const LEADING0: byte := 0x12
  const LEADING1: byte := 0x34

  const REQUEST_PACKET: uint16 := 2
  const INSTALL_WASM_APP: uint16 := 4

  /**
   `Outside` is no phase of the source: the installer has left its memory, or a request has been read beyond its end,
   and C says nothing about what follows.
   */
  datatype Phase = NonStart | Leading | Type | Size | Payload | Ignoring | Outside

  /**
   What an installer does with one byte: its new state, whether it accepts, and the byte count it reports; or it stores
   the byte outside its memory.
   */
  datatype Arrival<S> = Arrival(state: S, ok: bool, received: nat) | Lost(state: S)

  datatype Installer<!S> = Installer(arrive: (S, byte, nat) -> Arrival<S>)

  /** The receive context, with the state of the installer behind it. `payload` holds the bytes stored so far. */
  datatype Ctx<S> = Ctx(phase: Phase, msgType: uint16, payloadSize: uint32, payload: Option<seq<byte>>,
                        sizeInPhase: nat, installer: S)

  function Cleared<S>(installer: S): Ctx<S> {
    Ctx(NonStart, 0, 0, None, 0, installer)
  }

  predicate Wf<S>(c: Ctx<S>) {
    && (c.phase == Size ==> c.sizeInPhase < 4)
    && (c.phase == Payload && c.msgType != INSTALL_WASM_APP ==> c.payload.Some?)
  }

  /** Result of one byte: the new context, and whether a complete message has been received. */
  datatype Outcome<S> = Outcome(ctx: Ctx<S>, complete: bool)

  /** The bitwise or of two bytes. */
  function Or8(a: byte, b: byte): byte {
    if a == 0 then b else if b == 0 then a else ((a as bv8) | (b as bv8)) as int
  }

  /** `on_imrt_link_byte_arrive`, with allocation succeeding. */
  function Arrive<S>(inst: Installer<S>, c: Ctx<S>, ch: byte): (o: Outcome<S>)
    requires Wf(c)
    ensures Wf(o.ctx)
  {
    match c.phase
    case NonStart =>
      var c' := c.(payloadSize := 0, payload := None);
      Outcome(if ch == LEADING0 then c'.(phase := Leading) else c', false)
    case Leading =>
      Outcome(c.(phase := if ch == LEADING1 then Type else NonStart), false)
    case Type =>
      if c.sizeInPhase == 0 then Outcome(c.(msgType := ch, sizeInPhase := 1), false)
      else
        var merged := FromLE16([LE16(c.msgType)[0], Or8(LE16(c.msgType)[1], ch)]);
        Outcome(c.(msgType := Swap16(merged), phase := Size, sizeInPhase := 0), false)
    case Size =>
      var size := PutByte32(c.payloadSize, c.sizeInPhase, ch);
      if c.sizeInPhase + 1 < 4 then Outcome(c.(payloadSize := size, sizeInPhase := c.sizeInPhase + 1), false)
      else if Swap32(size) == 0 then
        Outcome(c.(phase := NonStart, payloadSize := 0, payload := None, sizeInPhase := 4), true)
      else
        Outcome(c.(phase := Payload, payloadSize := Swap32(size), sizeInPhase := 0,
                   payload := if c.msgType != INSTALL_WASM_APP then Some([]) else None), false)
    case Payload =>
      var n := c.sizeInPhase + 1;
      if c.msgType == INSTALL_WASM_APP then
        var a := inst.arrive(c.installer, ch, c.payloadSize);
        var c' := c.(installer := a.state, sizeInPhase := n);
        if a.Lost? then Outcome(c'.(phase := Outside), false)
        else if a.ok then
          if a.received == c.payloadSize then Outcome(c'.(phase := NonStart), true) else Outcome(c', false)
        else if n < c.payloadSize then Outcome(c'.(phase := Ignoring), false)
        else Outcome(c'.(phase := NonStart, sizeInPhase := 0), false)
      else
        var c' := c.(payload := Some(c.payload.value + [ch]), sizeInPhase := n);
        if n == c.payloadSize then Outcome(c'.(phase := NonStart), true) else Outcome(c', false)
    case Ignoring =>
      var n := c.sizeInPhase + 1;
      if n == c.payloadSize then Outcome(Cleared(c.installer), false) else Outcome(c.(sizeInPhase := n), false)
    case Outside => Outcome(c, false)
  }

  datatype Msg = Msg(msgType: uint16, payload: seq<byte>)

  /**
   What the callback makes of a request payload. The size that `unpack_request` gets is a signed integer, so it refuses
   one of 2^31 or more.
   */
  function Unpack(payload: seq<byte>): Packets.Unpacked<Packets.Request> {
    if payload == [] || |payload| >= 0x8000_0000 then Packets.Rejected
    else
      match Packets.UnpackRequest(payload)
      case Accepted(r) => Packets.Accepted(r.(sender := Modules.ID_HOST))
      case other => other
  }

  /** What the host callback has produced so far: messages in order, and requests dispatched. */
  datatype Run<S> = Run(ctx: Ctx<S>, received: seq<Msg>, dispatched: seq<Packets.Request>)

  /** One byte in `aee_host_msg_callback`. A request that does not unpack leaves the context as it is. */
  function Callback<S>(inst: Installer<S>, c: Ctx<S>, ch: byte): (r: Run<S>)
    requires Wf(c)
    ensures Wf(r.ctx)
  {
    var o := Arrive(inst, c, ch);
    if !o.complete then Run(o.ctx, [], [])
    else
      var cleared := Cleared(o.ctx.installer);
      if o.ctx.payload == None then Run(cleared, [Msg(o.ctx.msgType, [])], [])
      else
        var payload := o.ctx.payload.value;
        var m := Msg(o.ctx.msgType, payload);
        if o.ctx.msgType != REQUEST_PACKET then Run(cleared, [m], [])
        else
          match Unpack(payload)
          case Rejected => Run(o.ctx, [m], [])
          case PastEnd => Run(o.ctx.(phase := Outside), [m], [])
          case Accepted(request) => Run(cleared, [m], [request])
  }

  /** The callback over one chunk. */
  function Feed<S>(inst: Installer<S>, c: Ctx<S>, bs: seq<byte>): (r: Run<S>)
    requires Wf(c)
    ensures Wf(r.ctx)
    decreases bs
  {
    if bs == [] then Run(c, [], [])
    else
      var a := Callback(inst, c, bs[0]);
      var b := Feed(inst, a.ctx, bs[1..]);
      Run(b.ctx, a.received + b.received, a.dispatched + b.dispatched)
  }

  /** Chunks delivered by successive callbacks. */
  function FeedChunks<S>(inst: Installer<S>, c: Ctx<S>, chunks: seq<seq<byte>>): (r: Run<S>)
    requires Wf(c)
    ensures Wf(r.ctx)
    decreases chunks
  {
    if chunks == [] then Run(c, [], [])
    else
      var a := Feed(inst, c, chunks[0]);
      var b := FeedChunks(inst, a.ctx, chunks[1..]);
      Run(b.ctx, a.received + b.received, a.dispatched + b.dispatched)
  }

  function Flatten(chunks: seq<seq<byte>>): seq<byte> {
    if chunks == [] then [] else chunks[0] + Flatten(chunks[1..])
  }

  function Then<S>(a: Run<S>, b: Run<S>): Run<S> {
    Run(b.ctx, a.received + b.received, a.dispatched + b.dispatched)
  }

  lemma {:induction false} FeedConcat<S>(inst: Installer<S>, c: Ctx<S>, a: seq<byte>, b: seq<byte>)
    requires Wf(c)
    ensures Feed(inst, c, a + b) == Then(Feed(inst, c, a), Feed(inst, Feed(inst, c, a).ctx, b))
    decreases a
  {
    hide Callback;
    if a == [] {
      assert a + b == b;
    } else {
      assert (a + b)[1..] == a[1..] + b;
      FeedConcat(inst, Callback(inst, c, a[0]).ctx, a[1..], b);
    }
  }

  /** How the stream is cut into chunks makes no difference. */
  lemma {:induction false} ChunkingIrrelevant<S>(inst: Installer<S>, c: Ctx<S>, chunks: seq<seq<byte>>)
    requires Wf(c)
    ensures FeedChunks(inst, c, chunks) == Feed(inst, c, Flatten(chunks))
    decreases chunks
  {
    hide Callback, Feed;
    if chunks == [] {
      FeedNil(inst, c);
    } else {
      FeedConcat(inst, c, chunks[0], Flatten(chunks[1..]));
      ChunkingIrrelevant(inst, Feed(inst, c, chunks[0]).ctx, chunks[1..]);
    }
  }

  lemma FeedNil<S>(inst: Installer<S>, c: Ctx<S>)
    requires Wf(c)
    ensures Feed(inst, c, []) == Run(c, [], [])
  {
  }

  // Frames

  /** A frame as `app_manager_host_send_msg` writes it. */
  function Frame(m: Msg): seq<byte>
    requires |m.payload| < 0x1_0000_0000
  {
    FrameHead(m) + m.payload
  }

  function FrameHead(m: Msg): (s: seq<byte>)
    requires |m.payload| < 0x1_0000_0000
    ensures |s| == 8
  {
    [LEADING0, LEADING1] + BE16(m.msgType) + BE32(|m.payload|)
  }

  /** Between frames: looking for a leading byte with a clean position counter. */
  predicate Idle<S>(c: Ctx<S>) {
    c.phase == NonStart && c.sizeInPhase == 0
  }

  /** `bs` changes the context to `d` and produces nothing. */
  ghost predicate Reaches<S>(inst: Installer<S>, c: Ctx<S>, bs: seq<byte>, d: Ctx<S>)
    requires Wf(c)
  {
    Feed(inst, c, bs) == Run(d, [], [])
  }

  lemma Chain<S>(inst: Installer<S>, c: Ctx<S>, a: seq<byte>, d: Ctx<S>, b: seq<byte>, e: Ctx<S>)
    requires Wf(c) && Wf(d) && Reaches(inst, c, a, d) && Reaches(inst, d, b, e)
    ensures Reaches(inst, c, a + b, e)
  {
    hide Feed;
    FeedConcat(inst, c, a, b);
  }

  lemma One<S>(inst: Installer<S>, c: Ctx<S>, ch: byte, d: Ctx<S>)
    requires Wf(c) && Arrive(inst, c, ch) == Outcome(d, false)
    ensures Reaches(inst, c, [ch], d)
  {
    hide Arrive, Feed;
    FeedOne(inst, c, ch);
  }

  lemma Two<S>(inst: Installer<S>, c: Ctx<S>, s: seq<byte>, c1: Ctx<S>, c2: Ctx<S>)
    requires |s| == 2 && Wf(c) && Wf(c1) && Wf(c2)
    requires Arrive(inst, c, s[0]) == Outcome(c1, false) && Arrive(inst, c1, s[1]) == Outcome(c2, false)
    ensures Reaches(inst, c, s, c2)
  {
    hide Arrive, Feed, Reaches;
    One(inst, c, s[0], c1);
    One(inst, c1, s[1], c2);
    assert s == [s[0]] + [s[1]];
    Chain(inst, c, [s[0]], c1, [s[1]], c2);
  }

  /** Leading bytes and type. */
  lemma TypeReaches<S>(inst: Installer<S>, c: Ctx<S>, t: uint16)
    requires Wf(c) && Idle(c)
    ensures Reaches(inst, c, [LEADING0, LEADING1] + BE16(t), Ctx(Size, t, 0, None, 0, c.installer))
  {
    hide LE16, BE16, FromLE16, FromBE16;
    var s := BE16(t);
    var c1 := c.(payloadSize := 0, payload := None, phase := Leading);
    var c2 := c1.(phase := Type);
    var c3 := c2.(msgType := s[0], sizeInPhase := 1);
    var c4 := Ctx(Size, t, 0, None, 0, c.installer);
    TypeBytes(t);
    assert Arrive(inst, c, LEADING0) == Outcome(c1, false);
    assert Arrive(inst, c1, LEADING1) == Outcome(c2, false);
    assert Arrive(inst, c2, s[0]) == Outcome(c3, false);
    assert Arrive(inst, c3, s[1]) == Outcome(c4, false);
    Two(inst, c, [LEADING0, LEADING1], c1, c2);
    Two(inst, c2, s, c3, c4);
    Chain(inst, c, [LEADING0, LEADING1], c2, s, c4);
  }

  lemma TypeBytes(t: uint16)
    ensures var s := BE16(t); var low: uint16 := s[0];
            Swap16(FromLE16([LE16(low)[0], Or8(LE16(low)[1], s[1])])) == t
  {
    hide Or8;
    var s := BE16(t);
    var low: uint16 := s[0];
    OrZero(s[1]);
    assert LE16(low) == [s[0], 0];
  }

  lemma OrZero(b: byte)
    ensures Or8(0, b) == b
  {
  }

  /** The size field, for a payload that is not empty. */
  lemma SizeReaches<S>(inst: Installer<S>, c: Ctx<S>, n: uint32)
    requires c.phase == Size && c.sizeInPhase == 0 && c.payload == None && n > 0
    ensures Wf(c) && Reaches(inst, c, BE32(n), c.(phase := Payload, payloadSize := n, sizeInPhase := 0,
                                                  payload := if c.msgType != INSTALL_WASM_APP then Some([]) else None))
  {
    hide BE32, FromBE32, PutByte32, Swap32;
    var s := BE32(n);
    BE32Inverse(n);
    StoredThenSwapped32(c.payloadSize, s);
    var v1 := PutByte32(c.payloadSize, 0, s[0]);
    var v2 := PutByte32(v1, 1, s[1]);
    var v3 := PutByte32(v2, 2, s[2]);
    var c1 := c.(payloadSize := v1, sizeInPhase := 1);
    var c2 := c.(payloadSize := v2, sizeInPhase := 2);
    var c3 := c.(payloadSize := v3, sizeInPhase := 3);
    var c4 := c.(phase := Payload, payloadSize := n, sizeInPhase := 0,
                 payload := if c.msgType != INSTALL_WASM_APP then Some([]) else None);
    Two(inst, c, [s[0], s[1]], c1, c2);
    Two(inst, c2, [s[2], s[3]], c3, c4);
    Chain(inst, c, [s[0], s[1]], c2, [s[2], s[3]], c4);
    assert s == [s[0], s[1]] + [s[2], s[3]];
  }

  /** A zero size completes the message at once. */
  lemma EmptySize<S>(inst: Installer<S>, c: Ctx<S>)
    requires c.phase == Size && c.sizeInPhase == 0 && c.payload == None && c.payloadSize == 0
    ensures Wf(c) && Feed(inst, c, BE32(0)) == Run(Cleared(c.installer), [Msg(c.msgType, [])], [])
  {
    hide Feed;
    var c1 := c.(sizeInPhase := 1);
    var c2 := c.(sizeInPhase := 2);
    var c3 := c.(sizeInPhase := 3);
    Two(inst, c, [0, 0], c1, c2);
    One(inst, c2, 0, c3);
    Chain(inst, c, [0, 0], c2, [0], c3);
    FeedConcat(inst, c, [0, 0, 0], [0]);
    assert [0, 0] + [0] == [0, 0, 0] && [0, 0, 0] + [0] == BE32(0);
    FeedOne(inst, c3, 0);
  }

  lemma FeedOne<S>(inst: Installer<S>, c: Ctx<S>, ch: byte)
    requires Wf(c)
    ensures Feed(inst, c, [ch]) == Callback(inst, c, ch)
  {
    hide Callback;
    var a := Callback(inst, c, ch);
    assert [ch][1..] == [] && a.received + [] == a.received && a.dispatched + [] == a.dispatched;
  }

  /** Payload bytes short of the announced size accumulate. */
  lemma {:induction false} PayloadPart<S>(inst: Installer<S>, c: Ctx<S>, bs: seq<byte>)
    requires c.phase == Payload && c.msgType != INSTALL_WASM_APP && c.payload.Some?
             && c.sizeInPhase + |bs| < c.payloadSize
    ensures Wf(c) && Reaches(inst, c, bs,
                             c.(payload := Some(c.payload.value + bs), sizeInPhase := c.sizeInPhase + |bs|))
    decreases bs
  {
    hide Callback, Feed;
    if bs == [] {
      assert c.payload.value + [] == c.payload.value;
      FeedNil(inst, c);
    } else {
      var d := c.(payload := Some(c.payload.value + [bs[0]]), sizeInPhase := c.sizeInPhase + 1);
      One(inst, c, bs[0], d);
      PayloadPart(inst, d, bs[1..]);
      assert bs == [bs[0]] + bs[1..];
      assert c.payload.value + [bs[0]] + bs[1..] == c.payload.value + bs;
      Chain(inst, c, [bs[0]], d, bs[1..],
            c.(payload := Some(c.payload.value + bs), sizeInPhase := c.sizeInPhase + |bs|));
    }
  }

  /** A request frame with a payload. */
  predicate IsRequest(m: Msg) {
    m.msgType == REQUEST_PACKET && m.payload != []
  }

  function Requests(m: Msg): seq<Packets.Request> {
    if IsRequest(m) && Unpack(m.payload).Accepted? then [Unpack(m.payload).value] else []
  }

  /** Where one frame leaves the link: cleared, unless it is a request that does not unpack. */
  function AfterFrame<S>(m: Msg, installer: S): Ctx<S>
    requires |m.payload| < 0x1_0000_0000
  {
    if IsRequest(m) && !Unpack(m.payload).Accepted? then
      Ctx(if Unpack(m.payload).PastEnd? then Outside else NonStart, m.msgType, |m.payload|, Some(m.payload),
          |m.payload|, installer)
    else Cleared(installer)
  }

  /** One whole frame, other than an install frame with a payload. */
  lemma FrameReceived<S>(inst: Installer<S>, c: Ctx<S>, m: Msg)
    requires Wf(c) && Idle(c) && |m.payload| < 0x1_0000_0000 && (m.msgType == INSTALL_WASM_APP ==> m.payload == [])
    ensures Feed(inst, c, Frame(m)) == Run(AfterFrame(m, c.installer), [m], Requests(m))
  {
    hide Feed, BE16, BE32, Callback, Unpack;
    var c1 := Ctx(Size, m.msgType, 0, None, 0, c.installer);
    TypeReaches(inst, c, m.msgType);
    var head := [LEADING0, LEADING1] + BE16(m.msgType);
    if m.payload == [] {
      EmptySize(inst, c1);
      FeedConcat(inst, c, head, BE32(0));
      assert Frame(m) == head + BE32(0);
    } else {
      var n := |m.payload| - 1;
      var c2 := c1.(phase := Payload, payloadSize := n + 1, payload := Some([]));
      var c3 := c2.(payload := Some(m.payload[..n]), sizeInPhase := n);
      SizeReaches(inst, c1, n + 1);
      Chain(inst, c, head, c1, BE32(n + 1), c2);
      assert [] + m.payload[..n] == m.payload[..n];
      PayloadPart(inst, c2, m.payload[..n]);
      var front := head + BE32(n + 1) + m.payload[..n];
      Chain(inst, c, head + BE32(n + 1), c2, m.payload[..n], c3);
      assert Frame(m) == front + [m.payload[n]];
      FeedConcat(inst, c, front, [m.payload[n]]);
      FeedOne(inst, c3, m.payload[n]);
      LastPayloadByte(inst, c3, m);
    }
  }

  lemma LastPayloadByte<S>(inst: Installer<S>, c: Ctx<S>, m: Msg)
    requires 0 < |m.payload| < 0x1_0000_0000 && m.msgType != INSTALL_WASM_APP
    requires var n := |m.payload| - 1; c == Ctx(Payload, m.msgType, n + 1, Some(m.payload[..n]), n, c.installer)
    ensures Wf(c) && Callback(inst, c, m.payload[|m.payload| - 1]) == Run(AfterFrame(m, c.installer), [m], Requests(m))
  {
    hide Unpack;
    var n := |m.payload| - 1;
    assert m.payload[..n] + [m.payload[n]] == m.payload;
  }

  // Streams of frames

  /** A frame with the stray bytes in front of it. */
  datatype Item = Item(noise: seq<byte>, msg: Msg)

  /** Frames the link is meant for: no leading byte in the noise, install frames only empty, requests that unpack. */
  predicate Deliverable(i: Item) {
    && LEADING0 !in i.noise && |i.msg.payload| < 0x1_0000_0000
    && (i.msg.msgType == INSTALL_WASM_APP ==> i.msg.payload == [])
    && (IsRequest(i.msg) ==> Unpack(i.msg.payload).Accepted?)
  }

  predicate AllDeliverable(items: seq<Item>) {
    forall i | 0 <= i < |items| :: Deliverable(items[i])
  }

  function Stream(items: seq<Item>): seq<byte>
    requires AllDeliverable(items)
  {
    if items == [] then [] else items[0].noise + Frame(items[0].msg) + Stream(items[1..])
  }

  function Messages(items: seq<Item>): (r: seq<Msg>)
    ensures |r| == |items| && forall i | 0 <= i < |items| :: r[i] == items[i].msg
  {
    seq(|items|, i requires 0 <= i < |items| => items[i].msg)
  }

  /** The requests in the messages of the stream, in order. */
  function AllRequests(items: seq<Item>): seq<Packets.Request> {
    if items == [] then [] else Requests(items[0].msg) + AllRequests(items[1..])
  }

  lemma {:induction false} NoiseSkipped<S>(inst: Installer<S>, c: Ctx<S>, noise: seq<byte>)
    requires Wf(c) && Idle(c) && LEADING0 !in noise
    ensures Reaches(inst, c, noise, if noise == [] then c else c.(payloadSize := 0, payload := None))
    decreases noise
  {
    hide Feed;
    if noise == [] {
      FeedNil(inst, c);
    } else {
      var d := c.(payloadSize := 0, payload := None);
      One(inst, c, noise[0], d);
      NoiseSkipped(inst, d, noise[1..]);
      Chain(inst, c, [noise[0]], d, noise[1..], d);
      assert [noise[0]] + noise[1..] == noise;
    }
  }

  /** One frame behind its noise. */
  lemma ItemReceived<S>(inst: Installer<S>, c: Ctx<S>, i: Item)
    requires Wf(c) && Idle(c) && Deliverable(i)
    ensures Feed(inst, c, i.noise + Frame(i.msg)) == Run(Cleared(c.installer), [i.msg], Requests(i.msg))
  {
    hide Feed, Unpack, Requests, Frame;
    NoiseSkipped(inst, c, i.noise);
    var d := if i.noise == [] then c else c.(payloadSize := 0, payload := None);
    FeedConcat(inst, c, i.noise, Frame(i.msg));
    FrameReceived(inst, d, i.msg);
    assert [] + [i.msg] == [i.msg] && [] + Requests(i.msg) == Requests(i.msg);
  }

  /** Every message of the stream is received and every request dispatched, in order, and the link ends up cleared. */
  lemma {:induction false} StreamReceived<S>(inst: Installer<S>, c: Ctx<S>, items: seq<Item>)
    requires Wf(c) && Idle(c) && AllDeliverable(items)
    ensures var r := Feed(inst, c, Stream(items));
            && r.received == Messages(items) && r.dispatched == AllRequests(items)
            && r.ctx == if items == [] then c else Cleared(c.installer)
    decreases items
  {
    hide Feed, Unpack, Requests, Frame;
    if items == [] {
      FeedNil(inst, c);
    } else {
      var i, rest := items[0], Stream(items[1..]);
      assert Deliverable(i);
      ItemReceived(inst, c, i);
      FeedConcat(inst, c, i.noise + Frame(i.msg), rest);
      StreamReceived(inst, Cleared(c.installer), items[1..]);
      assert Messages(items) == [i.msg] + Messages(items[1..]);
    }
  }

  /**
   Round trip: however the stream is cut into chunks, exactly the frames that were sent are received and the requests in
   them dispatched.
   */
  lemma ChunkedStreamReceived<S>(inst: Installer<S>, installer: S, items: seq<Item>, chunks: seq<seq<byte>>)
    requires AllDeliverable(items) && Flatten(chunks) == Stream(items)
    ensures var r := FeedChunks(inst, Cleared(installer), chunks);
            r.received == Messages(items) && r.dispatched == AllRequests(items) && r.ctx == Cleared(installer)
  {
    hide Feed, FeedChunks;
    ChunkingIrrelevant(inst, Cleared(installer), chunks);
    StreamReceived(inst, Cleared(installer), items);
  }

  /** A request payload that `unpack_request` refuses whatever lies behind it. */
  predicate Refused(payload: seq<byte>) {
    || payload == [] || |payload| >= 0x8000_0000 || !Packets.Checked(payload)
    || (!Packets.ReadsPast(payload) && !Packets.Terminated(payload))
  }

  /** A request payload that cannot be read without looking beyond it. */
  predicate Overrun(payload: seq<byte>) {
    payload != [] && |payload| < 0x8000_0000 && Packets.Checked(payload) && Packets.ReadsPast(payload)
  }

  lemma UnpackOutcome(payload: seq<byte>)
    ensures Unpack(payload).Rejected? <==> Refused(payload)
    ensures Unpack(payload).PastEnd? <==> Overrun(payload)
  {
    hide Packets.UnpackRequest, Packets.ReadsPast, Packets.Terminated, Packets.Checked;
    if 0 < |payload| < 0x8000_0000 {
      Packets.AcceptedRequestTiles(payload);
    }
  }

  /**
   The exact conditions: a frame leaves the link idle unless it is a request packet that does not unpack. A refused one
   leaves it with a position counter that is not clean, and one that is read beyond its end leaves it outside.
   */
  lemma IdleAfterFrameExactlyWhen<S>(inst: Installer<S>, c: Ctx<S>, m: Msg)
    requires Wf(c) && Idle(c) && |m.payload| < 0x1_0000_0000 && (m.msgType == INSTALL_WASM_APP ==> m.payload == [])
    ensures var d := Feed(inst, c, Frame(m)).ctx;
            && (Idle(d) <==> (IsRequest(m) ==> !Refused(m.payload) && !Overrun(m.payload)))
            && (d.phase == NonStart && d.sizeInPhase > 0 <==> IsRequest(m) && Refused(m.payload))
            && (d.phase == Outside <==> IsRequest(m) && Overrun(m.payload))
  {
    hide Feed, Unpack, Refused, Overrun;
    FrameReceived(inst, c, m);
    UnpackOutcome(m.payload);
  }

  /** Behind a refused request the next frame is misread: this one comes out as an empty message of type 0x200. */
  lemma RejectedRequestSpoilsNext<S>(inst: Installer<S>, installer: S, payload: seq<byte>, x: byte)
    requires 0 < |payload| < 0x1_0000_0000 && Refused(payload)
    ensures var m := Msg(REQUEST_PACKET, payload);
            Feed(inst, AfterFrame(m, installer), Frame(Msg(0, [x]))).received == [Msg(0x200, [])]
  {
    hide Feed, Unpack, Refused;
    UnpackOutcome(payload);
    var c := AfterFrame(Msg(REQUEST_PACKET, payload), installer);
    var c1 := c.(payloadSize := 0, payload := None, phase := Leading);
    var c2 := c1.(phase := Type);
    var c3 := Ctx(Size, 0x200, 0, None, 0, installer);
    OrZero(0);
    assert LE16(REQUEST_PACKET) == [2, 0];
    assert Arrive(inst, c2, 0) == Outcome(c3, false);
    Two(inst, c, [LEADING0, LEADING1], c1, c2);
    One(inst, c2, 0, c3);
    Chain(inst, c, [LEADING0, LEADING1], c2, [0], c3);
    EmptySize(inst, c3);
    var front := [LEADING0, LEADING1] + [0];
    FeedConcat(inst, c, front, BE32(0));
    FeedConcat(inst, c, front + BE32(0), [1, x]);
    assert Frame(Msg(0, [x])) == front + BE32(0) + [1, x];
    assert Reaches(inst, Cleared(installer), [1],
                   Cleared(installer)) by { One(inst, Cleared(installer), 1, Cleared(installer)); }
    var d := if x == LEADING0 then Cleared(installer).(phase := Leading) else Cleared(installer);
    One(inst, Cleared(installer), x, d);
    Chain(inst, Cleared(installer), [1], Cleared(installer), [x], d);
    assert [1] + [x] == [1, x];
  }

  // Which request is dispatched

  /** The request that a payload stands for, by its bytes: `n` is the length of the URL field. */
  predicate Carries(payload: seq<byte>, n: nat, q: Packets.Request) {
    && 18 + n <= |payload| && n == Packets.Word16(payload, 12)
    && q.action == payload[1] && q.fmt == Packets.Word16(payload, 2) && q.mid == Packets.Word32(payload, 4)
    && q.sender == 0xFFFF_FFFD
    && 18 + |q.url| < |payload| && q.url == payload[18..18 + |q.url|] && 0 !in q.url && payload[18 + |q.url|] == 0
    && q.payload == payload[18 + n..]
  }

  lemma UnpackedCarries(payload: seq<byte>)
    requires Unpack(payload).Accepted?
    ensures |payload| >= 18 && Carries(payload, Packets.UrlLenField(payload), Unpack(payload).value)
  {
    hide FromBE16, FromBE32;
    Packets.WordsRead(payload, 2);
    Packets.WordsRead(payload, 4);
    Packets.WordsRead(payload, 12);
    var s := payload[18..];
    var url := CString(s);
    assert |url| == |s| ==> url == s;
    assert 0 in s && url == s[..|url|];
    assert s[|url|] == payload[18 + |url|] && s[..|url|] == payload[18..18 + |url|];
  }

  /**
   A request frame, from an idle link, dispatches exactly one request, the one its payload carries and with the host as
   its sender, if and only if the payload is neither refused nor read beyond its end; otherwise none.
   */
  lemma RequestDispatched<S>(inst: Installer<S>, c: Ctx<S>, payload: seq<byte>)
    requires Wf(c) && Idle(c) && 0 < |payload| < 0x1_0000_0000
    ensures var r := Feed(inst, c, Frame(Msg(REQUEST_PACKET, payload)));
            if Refused(payload) || Overrun(payload) then r.dispatched == []
            else |r.dispatched| == 1 && |payload| >= 18
                 && Carries(payload, Packets.Word16(payload, 12), r.dispatched[0])
  {
    hide Feed, Unpack, Refused, Overrun, Carries, Frame;
    FrameReceived(inst, c, Msg(REQUEST_PACKET, payload));
    UnpackOutcome(payload);
    if Unpack(payload).Accepted? {
      UnpackedCarries(payload);
      Packets.WordsRead(payload, 12);
    }
  }

  /** From packer to dispatcher: every request that can be packed is dispatched as it was, the host its sender. */
  lemma PackedDispatched<S>(inst: Installer<S>, c: Ctx<S>, r: Packets.Request)
    requires Wf(c) && Idle(c) && Packets.RequestInRange(r)
    ensures var image := Packets.RequestImage(r);
            Feed(inst, c, [0x12, 0x34, 0, 2] + BE32(|image|) + image) ==
            Run(Cleared(c.installer), [Msg(2, image)], [r.(sender := 0xFFFF_FFFD)])
  {
    hide Feed, Packets.RequestImage, Packets.UnpackRequest, BE32;
    var image := Packets.RequestImage(r);
    Packets.RequestRoundTrip(r);
    FrameReceived(inst, c, Msg(2, image));
    assert BE16(2) == [0, 2];
    assert Frame(Msg(2, image)) == [0x12, 0x34, 0, 2] + BE32(|image|) + image;
  }

  // Install frames and resynchronisation

  /** The installer reports one more than before for every byte it accepts, from `done` on. */
  ghost predicate ReportsCount<S>(inst: Installer<S>, s: S, bs: seq<byte>, total: nat, done: nat)
    decreases bs
  {
    bs == [] ||
    var a := inst.arrive(s, bs[0], total);
    a.Arrival? && a.ok ==> a.received == done + 1 && ReportsCount(inst, a.state, bs[1..], total, done + 1)
  }

  /** Up to the first byte it rejects, the installer stores nothing outside its memory. */
  predicate StaysInside<S>(inst: Installer<S>, s: S, bs: seq<byte>, total: nat)
    decreases bs
  {
    bs == [] ||
    var a := inst.arrive(s, bs[0], total);
    a.Arrival? && (a.ok ==> StaysInside(inst, a.state, bs[1..], total))
  }

  predicate AcceptsAll<S>(inst: Installer<S>, s: S, bs: seq<byte>, total: nat)
    decreases bs
  {
    bs == [] ||
    var a := inst.arrive(s, bs[0], total);
    a.Arrival? && a.ok && AcceptsAll(inst, a.state, bs[1..], total)
  }

  /** The installer's state when it has seen everything up to and including the first byte it does not accept. */
  function StateAfter<S>(inst: Installer<S>, s: S, bs: seq<byte>, total: nat): S
    decreases bs
  {
    if bs == [] then s
    else
      var a := inst.arrive(s, bs[0], total);
      if a.Arrival? && a.ok then StateAfter(inst, a.state, bs[1..], total) else a.state
  }

  /** Once a store or a read has gone outside, the link says nothing any more. */
  lemma {:induction false} OutsideStays<S>(inst: Installer<S>, c: Ctx<S>, bs: seq<byte>)
    requires c.phase == Outside
    ensures Wf(c) && Feed(inst, c, bs) == Run(c, [], [])
    decreases bs
  {
    if bs != [] {
      OutsideStays(inst, c, bs[1..]);
    }
  }

  lemma {:induction false} RestIgnored<S>(inst: Installer<S>, c: Ctx<S>, bs: seq<byte>)
    requires c.phase == Ignoring && bs != [] && c.sizeInPhase + |bs| == c.payloadSize
    ensures Wf(c) && Reaches(inst, c, bs, Cleared(c.installer))
    decreases bs
  {
    hide Feed;
    var d := if |bs| == 1 then Cleared(c.installer) else c.(sizeInPhase := c.sizeInPhase + 1);
    One(inst, c, bs[0], d);
    assert [bs[0]] + bs[1..] == bs;
    if |bs| == 1 {
      assert bs == [bs[0]];
    } else {
      RestIgnored(inst, d, bs[1..]);
      Chain(inst, c, [bs[0]], d, bs[1..], Cleared(c.installer));
    }
  }

  /** Clean again after an install payload. */
  predicate Resynchronised<S>(c: Ctx<S>) {
    Idle(c) && c.payload == None
  }

  /** The payload of an install frame. */
  lemma {:induction false} InstallPayload<S>(inst: Installer<S>, c: Ctx<S>, bs: seq<byte>)
    requires c.phase == Payload && c.msgType == INSTALL_WASM_APP && c.payload == None
    requires bs != [] && c.sizeInPhase + |bs| == c.payloadSize
    requires ReportsCount(inst, c.installer, bs, c.payloadSize, c.sizeInPhase)
    ensures Wf(c)
    ensures var r, s := Feed(inst, c, bs), StateAfter(inst, c.installer, bs, c.payloadSize);
            if !StaysInside(inst, c.installer, bs, c.payloadSize)
            then r.received == [] && r.dispatched == [] && r.ctx.phase == Outside
            else if AcceptsAll(inst, c.installer, bs, c.payloadSize)
            then r == Run(Cleared(s), [Msg(INSTALL_WASM_APP, [])], [])
            else r.received == [] && r.dispatched == [] && Resynchronised(r.ctx) && r.ctx.installer == s
    decreases bs
  {
    hide Feed;
    var n, rest := c.sizeInPhase + 1, bs[1..];
    var a := inst.arrive(c.installer, bs[0], c.payloadSize);
    assert [bs[0]] + rest == bs;
    FeedConcat(inst, c, [bs[0]], rest);
    FeedOne(inst, c, bs[0]);
    if a.Lost? {
      var d := c.(installer := a.state, sizeInPhase := n, phase := Outside);
      assert Callback(inst, c, bs[0]) == Run(d, [], []);
      OutsideStays(inst, d, rest);
    } else if a.ok {
      if rest == [] {
        FeedNil(inst, Cleared(a.state));
        assert AcceptsAll(inst, a.state, rest, c.payloadSize)
               && StateAfter(inst, a.state, rest, c.payloadSize) == a.state;
        assert StaysInside(inst, a.state, rest, c.payloadSize);
      } else {
        var d := c.(installer := a.state, sizeInPhase := n);
        assert Callback(inst, c, bs[0]) == Run(d, [], []);
        InstallPayload(inst, d, rest);
      }
    } else if rest == [] {
      FeedNil(inst, Callback(inst, c, bs[0]).ctx);
    } else {
      var d := c.(phase := Ignoring, installer := a.state, sizeInPhase := n);
      assert Callback(inst, c, bs[0]) == Run(d, [], []);
      RestIgnored(inst, d, rest);
    }
  }

  /**
   An install frame: whatever the installer rejects, the link consumes exactly the declared payload, reports no message
   for it and is between frames again; if it accepts everything, one completion is reported. All this as long as the
   installer stays inside its memory.
   */
  lemma InstallFrame<S>(inst: Installer<S>, c: Ctx<S>, bs: seq<byte>)
    requires Wf(c) && Idle(c) && 0 < |bs| < 0x1_0000_0000 && ReportsCount(inst, c.installer, bs, |bs|, 0)
    ensures var r, s := Feed(inst, c, Frame(Msg(INSTALL_WASM_APP, bs))), StateAfter(inst, c.installer, bs, |bs|);
            if !StaysInside(inst, c.installer, bs, |bs|)
            then r.received == [] && r.dispatched == [] && r.ctx.phase == Outside
            else if AcceptsAll(inst, c.installer, bs, |bs|)
            then r == Run(Cleared(s), [Msg(INSTALL_WASM_APP, [])], [])
            else r.received == [] && r.dispatched == [] && Resynchronised(r.ctx) && r.ctx.installer == s
  {
    hide Feed, BE16, BE32, Resynchronised;
    var c1 := Ctx(Size, INSTALL_WASM_APP, 0, None, 0, c.installer);
    var c2 := c1.(phase := Payload, payloadSize := |bs|);
    var head := [LEADING0, LEADING1] + BE16(INSTALL_WASM_APP);
    TypeReaches(inst, c, INSTALL_WASM_APP);
    SizeReaches(inst, c1, |bs|);
    Chain(inst, c, head, c1, BE32(|bs|), c2);
    FeedConcat(inst, c, head + BE32(|bs|), bs);
    InstallPayload(inst, c2, bs);
  }

  /** Contexts that differ only in fields the next frame overwrites before it reads them. */
  predicate Alike<S(==)>(c: Ctx<S>, d: Ctx<S>) {
    && c.phase == d.phase && c.sizeInPhase == d.sizeInPhase && c.installer == d.installer
    && (c.phase == NonStart || (c.payloadSize == d.payloadSize && c.payload == d.payload))
    && (((c.phase.NonStart? || c.phase.Leading? || c.phase.Type?) && c.sizeInPhase == 0) || c.msgType == d.msgType)
  }

  lemma AlikeStep<S>(inst: Installer<S>, c: Ctx<S>, d: Ctx<S>, ch: byte)
    requires Wf(c) && Wf(d) && Alike(c, d)
    ensures var a, b := Callback(inst, c, ch), Callback(inst, d, ch);
            a.received == b.received && a.dispatched == b.dispatched && Alike(a.ctx, b.ctx)
  {
    hide PutByte32, Swap32, LE16, FromLE16, Swap16, Or8, Unpack;
  }

  /** After resynchronisation everything that follows is handled as from the initial state. */
  lemma {:induction false} HandledAsFromStart<S>(inst: Installer<S>, c: Ctx<S>, d: Ctx<S>, bs: seq<byte>)
    requires Wf(c) && Wf(d) && Alike(c, d)
    ensures var a, b := Feed(inst, c, bs), Feed(inst, d, bs);
            a.received == b.received && a.dispatched == b.dispatched && Alike(a.ctx, b.ctx)
    decreases bs
  {
    hide Callback, Alike;
    if bs != [] {
      AlikeStep(inst, c, d, bs[0]);
      HandledAsFromStart(inst, Callback(inst, c, bs[0]).ctx, Callback(inst, d, bs[0]).ctx, bs[1..]);
    }
  }

  lemma ResynchronisedIsAlike<S>(c: Ctx<S>)
    requires Resynchronised(c)
    ensures Wf(c) && Alike(c, Cleared(c.installer))
  {
  }

  /**
   Resynchronisation: behind an install frame, whichever byte of it the installer rejects, everything is handled as from
   the initial state with the installer where that byte left it.
   */
  lemma Resynchronises<S>(inst: Installer<S>, c: Ctx<S>, bs: seq<byte>, more: seq<byte>)
    requires Wf(c) && Idle(c) && 0 < |bs| < 0x1_0000_0000 && ReportsCount(inst, c.installer, bs, |bs|, 0)
    requires StaysInside(inst, c.installer, bs, |bs|)
    ensures var r := Feed(inst, c, Frame(Msg(INSTALL_WASM_APP, bs)) + more);
            var t := Feed(inst, Cleared(StateAfter(inst, c.installer, bs, |bs|)), more);
            var done := if AcceptsAll(inst, c.installer, bs, |bs|) then [Msg(INSTALL_WASM_APP, [])] else [];
            r.received == done + t.received && r.dispatched == t.dispatched && Alike(r.ctx, t.ctx)
  {
    hide Feed, Frame, Alike, AcceptsAll, StateAfter, StaysInside, ReportsCount;
    var frame := Frame(Msg(INSTALL_WASM_APP, bs));
    InstallFrame(inst, c, bs);
    FeedConcat(inst, c, frame, more);
    var d := Feed(inst, c, frame).ctx;
    ResynchronisedIsAlike(d);
    HandledAsFromStart(inst, d, Cleared(d.installer), more);
    var t := Feed(inst, Cleared(d.installer), more);
    assert [] + t.received == t.received && [] + t.dispatched == t.dispatched;
  }
}
