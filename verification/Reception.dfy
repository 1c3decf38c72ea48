/**
 Whole install requests through the receiver: what the byte-at-a-time machine rebuilds from a complete message.
 */
module Reception {
  import opened Bytes
  import opened Install

  /**
   The receiver fed a run of bytes up to the first one it refuses: the context then, whether every byte was accepted,
   and what was handed over.
   */
  function Feed(cfg: Config, c: Ctx, bs: seq<byte>, total: nat): (r: Outcome)
    requires Wf(c)
    ensures Wf(r.ctx)
    decreases bs
  {
    if bs == [] then Go(c)
    else
      StepKeepsWf(cfg, c, bs[0], total);
      var o := Step(cfg, c, bs[0], total);
      if !o.ok then o
      else
        var r := Feed(cfg, o.ctx, bs[1..], total);
        Outcome(r.ctx, r.ok, o.handed + r.handed)
  }

  function Then(a: Outcome, b: Outcome): Outcome {
    if a.ok then Outcome(b.ctx, b.ok, a.handed + b.handed) else a
  }

  /**
   Feeding a run in two parts is feeding it whole; once a byte of the first part is refused the second is not looked
   at.
   */
  lemma {:induction false} FeedConcat(cfg: Config, c: Ctx, a: seq<byte>, b: seq<byte>, total: nat)
    requires Wf(c)
    ensures Feed(cfg, c, a + b, total) == Then(Feed(cfg, c, a, total), Feed(cfg, Feed(cfg, c, a, total).ctx, b, total))
    decreases a
  {
    hide Step;
    if a == [] {
      assert a + b == b;
    } else {
      StepKeepsWf(cfg, c, a[0], total);
      var o := Step(cfg, c, a[0], total);
      assert (a + b)[1..] == a[1..] + b;
      FeedConcat(cfg, o.ctx, a[1..], b, total);
    }
  }

  /** All of `bs` is accepted, nothing is handed over, and the context becomes `d`. */
  predicate Reaches(cfg: Config, c: Ctx, bs: seq<byte>, total: nat, d: Ctx)
    requires Wf(c)
  {
    Feed(cfg, c, bs, total) == Go(d)
  }

  lemma ReachesNil(cfg: Config, c: Ctx, total: nat)
    requires Wf(c)
    ensures Reaches(cfg, c, [], total, c)
  {
  }

  lemma Chain(cfg: Config, c: Ctx, a: seq<byte>, d: Ctx, b: seq<byte>, e: Ctx, total: nat)
    requires Wf(c) && Reaches(cfg, c, a, total, d)
    requires Reaches(cfg, d, b, total, e)
    ensures Reaches(cfg, c, a + b, total, e)
  {
    hide Step;
    FeedConcat(cfg, c, a, b, total);
  }

  lemma ReachesCons(cfg: Config, c: Ctx, ch: byte, d: Ctx, bs: seq<byte>, e: Ctx, total: nat)
    requires Wf(c) && Wf(d) && Step(cfg, c, ch, total) == Go(d)
    requires Reaches(cfg, d, bs, total, e)
    ensures Reaches(cfg, c, [ch] + bs, total, e)
  {
    hide Step;
    assert ([ch] + bs)[1..] == bs;
  }

  lemma ReachesFour(cfg: Config, c: Ctx, s: seq<byte>, c1: Ctx, c2: Ctx, c3: Ctx, c4: Ctx, total: nat)
    requires |s| == 4 && Wf(c) && Wf(c1) && Wf(c2) && Wf(c3) && Wf(c4)
    requires Step(cfg, c, s[0], total) == Go(c1) && Step(cfg, c1, s[1], total) == Go(c2)
    requires Step(cfg, c2, s[2], total) == Go(c3) && Step(cfg, c3, s[3], total) == Go(c4)
    ensures Reaches(cfg, c, s, total, c4)
  {
    hide Step, Wf;
    assert [s[3]] + [] == [s[3]] && [s[2]] + [s[3]] == [s[2], s[3]];
    assert [s[1]] + [s[2], s[3]] == [s[1], s[2], s[3]] && [s[0]] + [s[1], s[2], s[3]] == s;
    ReachesCons(cfg, c3, s[3], c4, [], c4, total);
    ReachesCons(cfg, c2, s[2], c3, [s[3]], c4, total);
    ReachesCons(cfg, c1, s[1], c2, [s[2], s[3]], c4, total);
    ReachesCons(cfg, c, s[0], c1, [s[1], s[2], s[3]], c4, total);
  }

  // Integer fields

  datatype Field = Fmt | UrlLen | Mid | Sender | AppSize

  function PhaseOf(f: Field): Phase {
    match f
    case Fmt => ReqFmt
    case UrlLen => ReqUrlLen
    case Mid => ReqMid
    case Sender => ReqSender
    case AppSize => ReqPayloadLen
  }

  function NextOf(f: Field): Phase {
    match f
    case Fmt => ReqMid
    case UrlLen => ReqPayloadLen
    case Mid => ReqSender
    case Sender => ReqUrlLen
    case AppSize => ReqUrl
  }

  function Get32(m: Message, f: Field): uint32 {
    match f
    case Fmt => m.fmt
    case UrlLen => m.urlLen
    case Mid => m.mid
    case Sender => m.sender
    case AppSize => m.appSize
  }

  function Set32(m: Message, f: Field, v: uint32): Message {
    match f
    case Fmt => if v < 0x1_0000 then m.(fmt := v) else m
    case UrlLen => if v < 0x1_0000 then m.(urlLen := v) else m
    case Mid => m.(mid := v)
    case Sender => m.(sender := v)
    case AppSize => m.(appSize := v)
  }

  predicate Wide(f: Field) {
    f.Mid? || f.Sender? || f.AppSize?
  }

  function At(c: Ctx, f: Field, k: nat, v: uint32): Ctx {
    c.(phase := PhaseOf(f), sizeInPhase := k, message := Set32(c.message, f, v), totalReceived := c.totalReceived + k)
  }

  /** The four bytes of a 32-bit field leave its big-endian value. */
  lemma Field32(cfg: Config, c: Ctx, f: Field, s: seq<byte>, total: nat)
    requires Wide(f) && |s| == 4 && c.phase == PhaseOf(f) && c.sizeInPhase == 0 && c.message.url == []
    ensures Wf(c) && Reaches(cfg, c, s, total, Enter(At(c, f, 4, FromBE32(s)), NextOf(f)))
  {
    hide PutByte32, Swap32, FromBE32;
    var v := Get32(c.message, f);
    var v1 := PutByte32(v, 0, s[0]);
    var v2 := PutByte32(v1, 1, s[1]);
    var v3 := PutByte32(v2, 2, s[2]);
    StoredThenSwapped32(v, s);
    var c4 := Enter(At(c, f, 4, FromBE32(s)), NextOf(f));
    assert Step(cfg, c, s[0], total) == Go(At(c, f, 1, v1));
    assert Step(cfg, At(c, f, 1, v1), s[1], total) == Go(At(c, f, 2, v2));
    assert Step(cfg, At(c, f, 2, v2), s[2], total) == Go(At(c, f, 3, v3));
    assert Step(cfg, At(c, f, 3, v3), s[3], total) == Go(c4);
    ReachesFour(cfg, c, s, At(c, f, 1, v1), At(c, f, 2, v2), At(c, f, 3, v3), c4, total);
  }

  /** The two bytes of a 16-bit field. */
  lemma Field16(cfg: Config, c: Ctx, f: Field, s: seq<byte>, total: nat)
    requires !Wide(f) && |s| == 2 && c.phase == PhaseOf(f) && c.sizeInPhase == 0 && c.message.url == []
    ensures Wf(c) && Reaches(cfg, c, s, total, Enter(At(c, f, 2, FromBE16(s)), NextOf(f)))
  {
    hide PutByte16, Swap16, FromBE16;
    var v := Get32(c.message, f);
    var v1 := PutByte16(v, 0, s[0]);
    StoredThenSwapped16(v, s);
    var c1, c2 := At(c, f, 1, v1), Enter(At(c, f, 2, FromBE16(s)), NextOf(f));
    assert Step(cfg, c, s[0], total) == Go(c1);
    assert Step(cfg, c1, s[1], total) == Go(c2);
    assert [s[1]] + [] == [s[1]] && [s[0]] + [s[1]] == s;
    ReachesCons(cfg, c1, s[1], c2, [], c2, total);
    ReachesCons(cfg, c, s[0], c1, [s[1]], c2, total);
  }

  // Header and URL

  datatype Header = Header(action: byte, fmt: uint16, mid: uint32, sender: uint32, appSize: uint32, url: seq<byte>)

  /** The request header as the host lays it out, up to the URL. */
  function FixedPart(h: Header): (s: seq<byte>)
    requires |h.url| < 0x1_0000
    ensures |s| == 18
  {
    [1, h.action] + BE16(h.fmt) + BE32(h.mid) + BE32(h.sender) + BE16(|h.url|) + BE32(h.appSize)
  }

  /** The message a header describes, before any of the application file. */
  function Described(h: Header): Message
    requires |h.url| < 0x1_0000
  {
    Message(h.action, h.fmt, h.mid, h.sender, |h.url|, h.appSize, [], 0, 0, [])
  }

  predicate Idle(c: Ctx) {
    c.phase == ReqVer && c.message == EMPTY_MESSAGE
  }

  lemma FixedPartReaches(cfg: Config, c: Ctx, h: Header, total: nat)
    requires Idle(c) && |h.url| < 0x1_0000
    ensures Wf(c) && Reaches(cfg, c, FixedPart(h), total, Ctx(ReqUrl, 0, Described(h), 18))
  {
    hide BE16, BE32, FromBE16, FromBE32;
    Image16(h.fmt, [0, 0]);
    Image16(|h.url|, [0, 0]);
    BE32Inverse(h.mid);
    BE32Inverse(h.sender);
    BE32Inverse(h.appSize);
    var m0 := EMPTY_MESSAGE.(action := h.action);
    var c1 := Ctx(ReqAction, 0, EMPTY_MESSAGE, 1);
    var c2 := Ctx(ReqFmt, 0, m0, 2);
    var c3 := Ctx(ReqMid, 0, m0.(fmt := h.fmt), 4);
    var c4 := Ctx(ReqSender, 0, c3.message.(mid := h.mid), 8);
    var c5 := Ctx(ReqUrlLen, 0, c4.message.(sender := h.sender), 12);
    var c6 := Ctx(ReqPayloadLen, 0, c5.message.(urlLen := |h.url|), 14);
    var c7 := Ctx(ReqUrl, 0, Described(h), 18);
    assert Step(cfg, c, 1, total) == Go(c1);
    assert Step(cfg, c1, h.action, total) == Go(c2);
    assert [1] + ([h.action] + []) == [1, h.action];
    ReachesCons(cfg, c1, h.action, c2, [], c2, total);
    ReachesCons(cfg, c, 1, c1, [h.action] + [], c2, total);
    Field16(cfg, c2, Fmt, BE16(h.fmt), total);
    Field32(cfg, c3, Mid, BE32(h.mid), total);
    Field32(cfg, c4, Sender, BE32(h.sender), total);
    Field16(cfg, c5, UrlLen, BE16(|h.url|), total);
    Field32(cfg, c6, AppSize, BE32(h.appSize), total);
    hide Step, Feed;
    var s := [1, h.action];
    Chain(cfg, c, s, c2, BE16(h.fmt), c3, total);
    Chain(cfg, c, s + BE16(h.fmt), c3, BE32(h.mid), c4, total);
    Chain(cfg, c, s + BE16(h.fmt) + BE32(h.mid), c4, BE32(h.sender), c5, total);
    Chain(cfg, c, s + BE16(h.fmt) + BE32(h.mid) + BE32(h.sender), c5, BE16(|h.url|), c6, total);
    Chain(cfg, c, s + BE16(h.fmt) + BE32(h.mid) + BE32(h.sender) + BE16(|h.url|), c6, BE32(h.appSize), c7, total);
  }

  function UrlAfter(c: Ctx, bs: seq<byte>): Ctx {
    c.(message := c.message.(url := c.message.url + bs), sizeInPhase := c.sizeInPhase + |bs|,
       totalReceived := c.totalReceived + |bs|)
  }

  /** URL bytes short of the announced length only accumulate. */
  lemma {:induction false} UrlPart(cfg: Config, c: Ctx, bs: seq<byte>, total: nat)
    requires Wf(c) && c.phase == ReqUrl && c.sizeInPhase + |bs| < c.message.urlLen
    ensures Reaches(cfg, c, bs, total, UrlAfter(c, bs))
    decreases bs
  {
    if bs == [] {
      assert c.message.url + [] == c.message.url;
    } else {
      var d := UrlAfter(c, bs[..1]);
      assert bs[..1] == [bs[0]];
      assert Step(cfg, c, bs[0], total) == Go(d);
      UrlPart(cfg, d, bs[1..], total);
      assert UrlAfter(d, bs[1..]) == UrlAfter(c, bs) by {
        assert bs == bs[..1] + bs[1..];
        assert c.message.url + bs == c.message.url + bs[..1] + bs[1..];
      }
      ReachesCons(cfg, c, bs[0], d, bs[1..], UrlAfter(c, bs), total);
      assert [bs[0]] + bs[1..] == bs;
    }
  }

  /** The last byte of a URL. */
  lemma LastUrlByte(cfg: Config, c: Ctx, url: seq<byte>, total: nat)
    requires c.phase == ReqUrl && c.sizeInPhase == 0 && c.message.url == [] && url != [] && c.message.urlLen == |url|
    ensures var n := |url| - 1;
            var d := UrlAfter(c, url[..n]);
            Wf(d) && Step(cfg, d, url[n], total) ==
                     Go(Ctx(AppMagic, 0, c.message.(url := url), c.totalReceived + |url|))
  {
    var n := |url| - 1;
    assert [] + url[..n] == url[..n] && url[..n] + [url[n]] == url;
  }

  /** A whole non-empty URL. */
  lemma UrlReaches(cfg: Config, c: Ctx, url: seq<byte>, total: nat)
    requires c.phase == ReqUrl && c.sizeInPhase == 0 && c.message.url == [] && url != [] && c.message.urlLen == |url|
    ensures Wf(c) && Reaches(cfg, c, url, total, Ctx(AppMagic, 0, c.message.(url := url), c.totalReceived + |url|))
  {
    hide Step, Feed;
    var n := |url| - 1;
    var d := UrlAfter(c, url[..n]);
    var e := Ctx(AppMagic, 0, c.message.(url := url), c.totalReceived + |url|);
    UrlPart(cfg, c, url[..n], total);
    LastUrlByte(cfg, c, url, total);
    assert url[..n] + [url[n]] == url && [url[n]] + [] == [url[n]];
    ReachesNil(cfg, e, total);
    ReachesCons(cfg, d, url[n], e, [], e, total);
    Chain(cfg, c, url[..n], d, [url[n]], e, total);
  }

  // File magic and version

  function FileHead(wasm: bool): (s: seq<byte>)
    ensures |s| == 8
  {
    if wasm then WASM_MAGIC + WASM_VERSION else AOT_MAGIC + AOT_VERSION
  }

  function Begun(m: Message, wasm: bool): Message {
    if wasm then m.(magic := FromLE32(WASM_MAGIC), version := FromLE32(WASM_VERSION))
    else m.(magic := FromLE32(AOT_MAGIC), version := FromLE32(AOT_VERSION))
  }

  lemma MagicReaches(cfg: Config, c: Ctx, wasm: bool, total: nat)
    requires c.phase == AppMagic && c.sizeInPhase == 0
    ensures var s := if wasm then WASM_MAGIC else AOT_MAGIC;
            Wf(c) && Reaches(cfg, c, s, total, Ctx(if wasm then WasmVersion else AotVersion, 0,
                                                   c.message.(magic := FromLE32(s)), c.totalReceived + 4))
  {
    hide PutByte32, LE32, FromLE32;
    var s := if wasm then WASM_MAGIC else AOT_MAGIC;
    var m, t := c.message, c.totalReceived;
    StoredThenSwapped32(m.magic, s);
    FromLE32Inverse(s);
    var v1 := PutByte32(m.magic, 0, s[0]);
    var v2 := PutByte32(v1, 1, s[1]);
    var v3 := PutByte32(v2, 2, s[2]);
    var c1 := Ctx(AppMagic, 1, m.(magic := v1), t + 1);
    var c2 := Ctx(AppMagic, 2, m.(magic := v2), t + 2);
    var c3 := Ctx(AppMagic, 3, m.(magic := v3), t + 3);
    var c4 := Ctx(if wasm then WasmVersion else AotVersion, 0, m.(magic := FromLE32(s)), t + 4);
    assert WASM_MAGIC[2] != AOT_MAGIC[2];
    assert Step(cfg, c, s[0], total) == Go(c1);
    assert Step(cfg, c1, s[1], total) == Go(c2);
    assert Step(cfg, c2, s[2], total) == Go(c3);
    assert Step(cfg, c3, s[3], total) == Go(c4);
    ReachesFour(cfg, c, s, c1, c2, c3, c4, total);
  }

  lemma VersionReaches(cfg: Config, c: Ctx, wasm: bool, total: nat)
    requires c.phase == (if wasm then WasmVersion else AotVersion) && c.sizeInPhase == 0
    ensures var s := if wasm then WASM_VERSION else AOT_VERSION;
            Wf(c) && Reaches(cfg, c, s, total, Ctx(if wasm then WasmSectionType else AotSectionId, 0,
                                                   c.message.(version := FromLE32(s)), c.totalReceived + 4))
  {
    hide PutByte32, FromLE32;
    var s := if wasm then WASM_VERSION else AOT_VERSION;
    var m, t := c.message, c.totalReceived;
    StoredThenSwapped32(m.version, s);
    var v1 := PutByte32(m.version, 0, s[0]);
    var v2 := PutByte32(v1, 1, s[1]);
    var v3 := PutByte32(v2, 2, s[2]);
    var c1 := Ctx(c.phase, 1, m.(version := v1), t + 1);
    var c2 := Ctx(c.phase, 2, m.(version := v2), t + 2);
    var c3 := Ctx(c.phase, 3, m.(version := v3), t + 3);
    var c4 := Ctx(if wasm then WasmSectionType else AotSectionId, 0, m.(version := FromLE32(s)), t + 4);
    assert Step(cfg, c, s[0], total) == Go(c1);
    assert Step(cfg, c1, s[1], total) == Go(c2);
    assert Step(cfg, c2, s[2], total) == Go(c3);
    assert Step(cfg, c3, s[3], total) == Go(c4);
    ReachesFour(cfg, c, s, c1, c2, c3, c4, total);
  }

  // Section bodies

  function BodyAfter(c: Ctx, bs: seq<byte>): Ctx
    requires c.message.sections != []
  {
    var s := Last(c.message);
    c.(message := WithLast(c.message, s.(body := s.body + bs)), sizeInPhase := c.sizeInPhase + |bs|,
    totalReceived := c.totalReceived + |bs|)
  }

  /** With an announced length of zero, the second byte leaves the one-byte block. */
  lemma EmptyUrl(cfg: Config, c: Ctx, bs: seq<byte>, total: nat)
    requires Wf(c) && c.phase == ReqUrl && c.sizeInPhase == 0 && c.message.urlLen == 0
    ensures var r := Feed(cfg, c, bs, total);
            r.handed == [] && (if |bs| <= 1 then r.ok && r.ctx.phase == ReqUrl else !r.ok && r.ctx.phase == Outside)
  {
    if bs != [] {
      var d := UrlAfter(c, bs[..1]);
      assert bs[..1] == [bs[0]];
      assert Step(cfg, c, bs[0], total) == Go(d);
      if |bs| > 1 {
        assert bs[1..][0] == bs[1];
        assert Step(cfg, d, bs[1], total) == Stray(Count(d));
      } else {
        assert bs[1..] == [];
      }
    }
  }

  /** Body bytes short of the announced size only accumulate. */
  lemma {:induction false} BodyPart(cfg: Config, c: Ctx, bs: seq<byte>, total: nat)
    requires Wf(c) && c.phase in {WasmSectionContent, AotSectionContent} && c.sizeInPhase + |bs| < Last(c.message).size
    ensures Reaches(cfg, c, bs, total, BodyAfter(c, bs))
    decreases bs
  {
    hide PadText;
    if bs == [] {
      assert Last(c.message).body + [] == Last(c.message).body;
      LastReplaced(c.message, Last(c.message), Last(c.message));
    } else {
      var d := BodyAfter(c, bs[..1]);
      assert bs[..1] == [bs[0]];
      assert Step(cfg, c, bs[0], total) == Go(d);
      BodyPart(cfg, d, bs[1..], total);
      BodyAfterTwice(c, bs[..1], bs[1..]);
      assert bs[..1] + bs[1..] == [bs[0]] + bs[1..] == bs;
      ReachesCons(cfg, c, bs[0], d, bs[1..], BodyAfter(c, bs), total);
    }
  }

  /** In an empty body, the second byte leaves the block of a bytecode section and the first that of an AOT section. */
  lemma EmptyBody(cfg: Config, c: Ctx, bs: seq<byte>, total: nat)
    requires Wf(c) && c.phase in {WasmSectionContent, AotSectionContent}
    requires Last(c.message).size == 0 && c.sizeInPhase == 0
    ensures var r := Feed(cfg, c, bs, total);
            var room := if c.phase == WasmSectionContent then 1 else 0;
            r.handed == [] && (if |bs| <= room then r.ok && r.ctx.phase == c.phase else !r.ok && r.ctx.phase == Outside)
  {
    if bs != [] {
      if c.phase == WasmSectionContent {
        var d := BodyAfter(c, bs[..1]);
        assert bs[..1] == [bs[0]];
        assert Step(cfg, c, bs[0], total) == Go(d);
        if |bs| > 1 {
          assert bs[1..][0] == bs[1];
          assert Step(cfg, d, bs[1], total) == Stray(Count(d));
        } else {
          assert bs[1..] == [];
        }
      } else {
        assert Step(cfg, c, bs[0], total) == Stray(Count(c));
      }
    }
  }

  lemma BodyAfterTwice(c: Ctx, a: seq<byte>, b: seq<byte>)
    requires c.message.sections != []
    ensures BodyAfter(BodyAfter(c, a), b) == BodyAfter(c, a + b)
  {
    var s := Last(c.message);
    assert s.body + a + b == s.body + (a + b);
    LastReplaced(c.message, s.(body := s.body + a), s.(body := s.body + a + b));
  }

  /** When nothing is handed over in the course of a run, nothing is handed over at any point of it. */
  lemma NothingHandedYet(cfg: Config, c: Ctx, front: seq<byte>, total: nat, d: Ctx, k: nat)
    requires Wf(c) && Reaches(cfg, c, front, total, d) && k <= |front|
    ensures Feed(cfg, c, front[..k], total).ok && Feed(cfg, c, front[..k], total).handed == []
  {
    assert front == front[..k] + front[k..];
    FeedConcat(cfg, c, front[..k], front[k..], total);
  }

  /** A whole request: received, and handed over on its last byte and not before. */
  ghost predicate HandedOnLastByte(cfg: Config, c: Ctx, request: seq<byte>, m: Message)
    requires Wf(c)
  {
    && Feed(cfg, c, request, |request|) == Outcome(EMPTY_CTX, true, [m])
    && forall k | 0 <= k < |request| :: Feed(cfg, c, request[..k], |request|).handed == []
  }

  /** The request is accepted to its end and the receiver is still inside it. */
  ghost predicate Unfinished(cfg: Config, c: Ctx, request: seq<byte>)
    requires Wf(c)
  {
    var r := Feed(cfg, c, request, |request|);
    r.ok && r.handed == [] && !Idle(r.ctx)
  }

  /** Some byte of the request is stored outside its block. */
  ghost predicate LeavesBlock(cfg: Config, c: Ctx, request: seq<byte>)
    requires Wf(c)
  {
    Feed(cfg, c, request, |request|).ctx.phase == Outside
  }

  /** Some byte of the request is refused and everything received is dropped. */
  ghost predicate Dropped(cfg: Config, c: Ctx, request: seq<byte>)
    requires Wf(c)
  {
    var r := Feed(cfg, c, request, |request|);
    !r.ok && r.handed == [] && Idle(r.ctx)
  }

  /** In the course of a request. */
  predicate Busy(c: Ctx) {
    c.phase !in {ReqVer, Released, Outside}
  }

  /** After an accepted byte the receiver is in the course of a request, or has handed one over. */
  lemma StepGoes(cfg: Config, c: Ctx, ch: byte, total: nat)
    requires Wf(c)
    ensures var o := Step(cfg, c, ch, total); o.ok ==> o.ctx.phase != Outside && (o.handed == [] ==> Busy(o.ctx))
  {
    hide PutByte32, PutByte16, LE32, Swap32, Swap16, PadText, PaddedTextSize, Pow128;
  }

  lemma {:induction false} Goes(cfg: Config, c: Ctx, bs: seq<byte>, total: nat)
    requires Wf(c) && (bs != [] || Busy(c))
    ensures var r := Feed(cfg, c, bs, total); r.ok && r.handed == [] ==> Busy(r.ctx)
    decreases bs
  {
    hide Step;
    if bs != [] {
      StepGoes(cfg, c, bs[0], total);
      StepKeepsWf(cfg, c, bs[0], total);
      var o := Step(cfg, c, bs[0], total);
      if o.ok && o.handed == [] {
        Goes(cfg, o.ctx, bs[1..], total);
      }
    }
  }

  /** What is left of a run after a part that is accepted. */
  lemma After(cfg: Config, c: Ctx, a: seq<byte>, d: Ctx, b: seq<byte>, total: nat)
    requires Wf(c) && Reaches(cfg, c, a, total, d)
    ensures Feed(cfg, c, a + b, total) == Feed(cfg, d, b, total)
  {
    hide Step;
    FeedConcat(cfg, c, a, b, total);
    var r := Feed(cfg, d, b, total);
    assert [] + r.handed == r.handed;
  }

  // Counting

  /** A context from which byte counts are right: before a request, or `done` bytes into one. */
  predicate Counting(c: Ctx, done: nat) {
    && Wf(c) && c.phase != Outside && c.phase != Released
    && (Idle(c) ==> done == 0)
    && (!Idle(c) ==> c.phase != ReqVer && c.totalReceived == done)
  }

  /**
   One byte: stored outside its block, or refused and idle again, or the message handed over on byte `total`, or one
   byte further into the request.
   */
  lemma StepCounts(cfg: Config, c: Ctx, ch: byte, total: nat, done: nat)
    requires Counting(c, done) && cfg.postOk
    ensures var o := Step(cfg, c, ch, total);
            && Count(c).totalReceived == done + 1
            && (o.ctx.phase == Outside ==> !o.ok && o.handed == [])
            && (!o.ok && o.ctx.phase != Outside ==> Idle(o.ctx) && o.handed == [])
            && (o.ok && o.handed == [] ==> Counting(o.ctx, done + 1) && !Idle(o.ctx))
            && (o.ok && o.handed != [] ==> done + 1 == total && o.ctx == EMPTY_CTX && |o.handed| == 1)
  {
    hide PutByte32, PutByte16, LE32, LE16, Swap32, Swap16, PadText, PaddedTextSize,
         PaddedTextSize32, Pow128;
    StepKeepsWf(cfg, c, ch, total);
  }

  /** Nothing is handed over before the last byte. */
  lemma {:induction false} NotBeforeLast(cfg: Config, c: Ctx, bs: seq<byte>, total: nat, done: nat)
    requires Counting(c, done) && cfg.postOk && done + |bs| < total
    ensures Feed(cfg, c, bs, total).handed == []
    decreases bs
  {
    hide Step, Wf;
    if bs != [] {
      StepCounts(cfg, c, bs[0], total, done);
      var o := Step(cfg, c, bs[0], total);
      if o.ok {
        NotBeforeLast(cfg, o.ctx, bs[1..], total, done + 1);
      }
    }
  }
}
