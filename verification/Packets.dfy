/**
 Request and response packets: core/app-framework/app-native-shared/restful_utils.c.
 A packet is a fixed header in network byte order followed by the URL with its terminator
 (requests only) and the payload.
 */
module Packets {
  import opened Bytes

  const PACKET_VER: byte := 1
  const REQUEST_FIX_LEN := 18
  const RESPONSE_FIX_LEN := 16

  datatype Request = Request(action: byte, fmt: uint16, mid: uint32, sender: uint32, url: seq<byte>, payload: seq<byte>)
  datatype Response = Response(status: byte, fmt: uint16, mid: uint32, receiver: uint32, payload: seq<byte>)

  /** The URL is a C string whose length with terminator fits the 16-bit field; the packet length fits an `int`. */
  predicate RequestInRange(r: Request) {
    0 !in r.url && |r.url| + 1 < 0x1_0000 && REQUEST_FIX_LEN + |r.url| + 1 + |r.payload| < 0x8000_0000
  }

  predicate ResponseInRange(r: Response) {
    RESPONSE_FIX_LEN + |r.payload| < 0x8000_0000
  }

  /** The twelve bytes both packet kinds start with. */
  function Common(code: byte, fmt: uint16, mid: uint32, peer: uint32): (s: seq<byte>)
    ensures |s| == 12
  {
    [PACKET_VER, code] + BE16(fmt) + BE32(mid) + BE32(peer)
  }

  /** The packet as one value; the length fields keep only their low bits, as `htons` and `htonl` do. */
  function RequestImage(r: Request): (s: seq<byte>)
    ensures |s| == REQUEST_FIX_LEN + |r.url| + 1 + |r.payload|
  {
    Common(r.action, r.fmt, r.mid, r.sender)
    + BE16((|r.url| + 1) % 0x1_0000) + BE32(|r.payload| % 0x1_0000_0000)
    + r.url + [0] + r.payload
  }

  function ResponseImage(r: Response): (s: seq<byte>)
    ensures |s| == RESPONSE_FIX_LEN + |r.payload|
  {
    Common(r.status, r.fmt, r.mid, r.receiver) + BE32(|r.payload| % 0x1_0000_0000) + r.payload
  }

  method FillHeader(packet: array<byte>, code: byte, fmt: seq<byte>, mid: seq<byte>, peer: seq<byte>) returns (p: nat)
    requires |fmt| == 2 && |mid| == 4 && |peer| == 4 && packet.Length >= 12
    modifies packet
    ensures p == 12 && packet[..p] == [PACKET_VER, code] + fmt + mid + peer
  {
    p := Append(packet, 0, [PACKET_VER, code]);
    p := Append(packet, p, fmt);
    p := Append(packet, p, mid);
    p := Append(packet, p, peer);
  }

  method FillTail(packet: array<byte>, start: nat, urlLen: seq<byte>, payloadLen: seq<byte>, url: seq<byte>,
                  payload: seq<byte>)
    requires packet.Length == start + |urlLen| + |payloadLen| + |url| + 1 + |payload|
    modifies packet
    ensures packet[..] == old(packet[..start]) + urlLen + payloadLen + url + [0] + payload
  {
    var p := Append(packet, start, urlLen);
    p := Append(packet, p, payloadLen);
    p := Append(packet, p, url);
    p := Append(packet, p, [0]);
    p := Append(packet, p, payload);
    assert packet[..] == packet[..p];
  }

  /** `pack_request`: fills a fresh buffer field by field. */
  method PackRequest(r: Request) returns (packet: array<byte>)
    requires RequestInRange(r)
    ensures fresh(packet) && packet[..] == RequestImage(r)
  {
    hide BE16, BE32;
    var urlLen := |r.url| + 1;
    packet := new byte[REQUEST_FIX_LEN + urlLen + |r.payload|];
    var p := FillHeader(packet, r.action, BE16(r.fmt), BE32(r.mid), BE32(r.sender));
    FillTail(packet, p, BE16(urlLen), BE32(|r.payload|), r.url, r.payload);
  }

  /** `pack_response`. */
  method PackResponse(r: Response) returns (packet: array<byte>)
    requires ResponseInRange(r)
    ensures fresh(packet) && packet[..] == ResponseImage(r)
  {
    hide BE16, BE32;
    packet := new byte[RESPONSE_FIX_LEN + |r.payload|];
    var p := FillHeader(packet, r.status, BE16(r.fmt), BE32(r.mid), BE32(r.receiver));
    p := Append(packet, p, BE32(|r.payload|));
    p := Append(packet, p, r.payload);
    assert packet[..] == packet[..p];
  }

  /** Two bytes of a packet as a number, the high one first. */
  function Word16(s: seq<byte>, i: nat): int
    requires i + 2 <= |s|
  {
    0x100 * (s[i] as int) + s[i + 1] as int
  }

  function Word32(s: seq<byte>, i: nat): int
    requires i + 4 <= |s|
  {
    0x100_0000 * (s[i] as int) + 0x1_0000 * (s[i + 1] as int) + 0x100 * (s[i + 2] as int) + s[i + 3] as int
  }

  /** The packet byte by byte: version, code, four fields with their high bytes first, URL with terminator, payload. */
  lemma RequestBytes(r: Request)
    requires RequestInRange(r)
    ensures var p, n := RequestImage(r), 18 + |r.url|;
            && |p| == n + 1 + |r.payload| && p[0] == 1 && p[1] == r.action && Word16(p, 2) == r.fmt
            && Word32(p, 4) == r.mid && Word32(p, 8) == r.sender
            && Word16(p, 12) == |r.url| + 1 && Word32(p, 14) == |r.payload|
            && p[18..n] == r.url && p[n] == 0 && p[n + 1..] == r.payload
  {
    hide RequestImage;
    var p := RequestImage(r);
    RequestFields(r);
    RequestTail(r);
    var t := p[18..];
    assert CString(t) == r.url == t[..|r.url|];
    WordsRead(p, 2);
    WordsRead(p, 4);
    WordsRead(p, 8);
    WordsRead(p, 12);
    WordsRead(p, 14);
  }

  lemma WordsRead(p: seq<byte>, i: nat)
    requires i + 4 <= |p|
    ensures Word16(p, i) == FromBE16(p[i..i + 2]) && Word32(p, i) == FromBE32(p[i..i + 4])
  {
    var a, b := p[i..i + 2], p[i..i + 4];
    assert a[0] == p[i] && a[1] == p[i + 1];
    assert b[0] == p[i] && b[1] == p[i + 1] && b[2] == p[i + 2] && b[3] == p[i + 3];
  }

  lemma ResponseBytes(r: Response)
    requires ResponseInRange(r)
    ensures var p := ResponseImage(r);
            && |p| == 16 + |r.payload| && p[0] == 1 && p[1] == r.status && Word16(p, 2) == r.fmt
            && Word32(p, 4) == r.mid && Word32(p, 8) == r.receiver && Word32(p, 12) == |r.payload|
            && p[16..] == r.payload
  {
    hide BE16, BE32, FromBE16, FromBE32, Common, Word16, Word32;
    var p := ResponseImage(r);
    ResponseSlices(Common(r.status, r.fmt, r.mid, r.receiver), BE32(|r.payload|), r.payload);
    CommonFields(p, r.status, r.fmt, r.mid, r.receiver);
    BE32Inverse(|r.payload|);
    WordsRead(p, 2);
    WordsRead(p, 4);
    WordsRead(p, 8);
    WordsRead(p, 12);
  }

  /** `PastEnd`: the request cannot be read without looking beyond the packet, and C says nothing about the outcome. */
  datatype Unpacked<T> = Rejected | PastEnd | Accepted(value: T)

  function UrlLenField(packet: seq<byte>): int
    requires |packet| >= REQUEST_FIX_LEN
  {
    FromBE16(packet[12..14])
  }

  function PayloadLenField(packet: seq<byte>): int
    requires |packet| >= REQUEST_FIX_LEN
  {
    FromBE32(packet[14..18])
  }

  /** The lengths in the header add up to the packet size in 32-bit arithmetic. */
  predicate LengthsAgree(packet: seq<byte>)
    requires |packet| >= REQUEST_FIX_LEN
  {
    |packet| == (REQUEST_FIX_LEN + UrlLenField(packet) + PayloadLenField(packet)) % 0x1_0000_0000
  }

  /**
   `unpack_request`. The URL of the result is read as a C string, as every user of it does. Behind an empty URL field
   that string is whatever the payload starts with, and it may have no end there.
   */
  function UnpackRequest(packet: seq<byte>): (u: Unpacked<Request>)
    requires 1 <= |packet| < 0x8000_0000
  {
    if packet[0] != PACKET_VER || |packet| < REQUEST_FIX_LEN || !LengthsAgree(packet) then
      Rejected
    else
      var urlLen: int := UrlLenField(packet);
      if REQUEST_FIX_LEN + urlLen - 1 >= |packet| then PastEnd
      else if packet[REQUEST_FIX_LEN + urlLen - 1] != 0 then Rejected
      else if 0 !in packet[REQUEST_FIX_LEN..] then PastEnd
      else
        Accepted(Request(packet[1], FromBE16(packet[2..4]), FromBE32(packet[4..8]), FromBE32(packet[8..12]),
                         CString(packet[REQUEST_FIX_LEN..]), packet[REQUEST_FIX_LEN + urlLen..]))
  }

  /** `unpack_response`. */
  function UnpackResponse(packet: seq<byte>): (u: Unpacked<Response>)
    requires 1 <= |packet| < 0x8000_0000
  {
    if packet[0] != PACKET_VER || |packet| < RESPONSE_FIX_LEN
       || |packet| != (RESPONSE_FIX_LEN + FromBE32(packet[12..16])) % 0x1_0000_0000 then
      Rejected
    else
      Accepted(Response(packet[1], FromBE16(packet[2..4]), FromBE32(packet[4..8]), FromBE32(packet[8..12]),
                        packet[RESPONSE_FIX_LEN..]))
  }

  lemma BigEndianInverse(a: uint16, b: uint32, c: uint32)
    ensures FromBE16(BE16(a)) == a && FromBE32(BE32(b)) == b && FromBE32(BE32(c)) == c
  {
    BE32Inverse(b);
    BE32Inverse(c);
  }

  lemma Slices(c: seq<byte>, u: seq<byte>, l: seq<byte>, url: seq<byte>, payload: seq<byte>)
    requires |c| == 12 && |u| == 2 && |l| == 4
    ensures var p := c + u + l + url + [0] + payload;
            p[..12] == c && p[12..14] == u && p[14..18] == l && p[18..] == url + [0] + payload
  {
    assert c + u + l + url + [0] + payload == (c + u + l) + (url + [0] + payload);
  }

  /** Reading back the common header. */
  lemma CommonFields(packet: seq<byte>, code: byte, fmt: uint16, mid: uint32, peer: uint32)
    requires |packet| >= 12 && packet[..12] == Common(code, fmt, mid, peer)
    ensures packet[0] == PACKET_VER && packet[1] == code && FromBE16(packet[2..4]) == fmt
    ensures FromBE32(packet[4..8]) == mid && FromBE32(packet[8..12]) == peer
  {
    var c := Common(code, fmt, mid, peer);
    assert packet[0] == c[0] && packet[1] == c[1];
    assert packet[2..4] == c[2..4] == BE16(fmt) && packet[4..8] == c[4..8] == BE32(mid)
           && packet[8..12] == c[8..12] == BE32(peer);
    BigEndianInverse(fmt, mid, peer);
  }

  /** Unpacking a packed request returns it. */
  lemma RequestRoundTrip(r: Request)
    requires RequestInRange(r)
    ensures UnpackRequest(RequestImage(r)) == Accepted(r)
  {
    hide BE16, BE32, FromBE16, FromBE32, RequestImage;
    RequestFields(r);
    RequestTail(r);
  }

  lemma RequestFields(r: Request)
    requires RequestInRange(r)
    ensures var p := RequestImage(r);
            && p[0] == PACKET_VER && p[1] == r.action && FromBE16(p[2..4]) == r.fmt
            && FromBE32(p[4..8]) == r.mid && FromBE32(p[8..12]) == r.sender
            && FromBE16(p[12..14]) == |r.url| + 1 && FromBE32(p[14..18]) == |r.payload|
  {
    hide BE16, BE32, FromBE16, FromBE32, Common;
    Slices(Common(r.action, r.fmt, r.mid, r.sender), BE16(|r.url| + 1), BE32(|r.payload|), r.url, r.payload);
    CommonFields(RequestImage(r), r.action, r.fmt, r.mid, r.sender);
    BigEndianInverse(|r.url| + 1, |r.payload|, 0);
  }

  lemma RequestTail(r: Request)
    requires RequestInRange(r)
    ensures var p := RequestImage(r);
            && |p| == 18 + |r.url| + 1 + |r.payload|
            && p[18 + |r.url|] == 0 && CString(p[18..]) == r.url && p[18 + |r.url| + 1..] == r.payload
  {
    hide BE16, BE32, Common, CString;
    Slices(Common(r.action, r.fmt, r.mid, r.sender), BE16(|r.url| + 1), BE32(|r.payload|), r.url, r.payload);
    CStringOf(r.url, r.payload);
    TailSlices(RequestImage(r), r.url, r.payload);
  }

  lemma TailSlices(p: seq<byte>, url: seq<byte>, payload: seq<byte>)
    requires |p| >= 18 && p[18..] == url + [0] + payload
    ensures |p| == 18 + |url| + 1 + |payload| && p[18 + |url|] == 0 && p[18 + |url| + 1..] == payload
  {
    var t := p[18..];
    assert |t| == |url| + 1 + |payload| && t[|url|] == 0 && t[|url| + 1..] == payload;
    assert p[18 + |url|] == t[|url|];
    assert p[18 + |url| + 1..] == t[|url| + 1..];
  }

  lemma ResponseSlices(c: seq<byte>, l: seq<byte>, payload: seq<byte>)
    requires |c| == 12 && |l| == 4
    ensures var p := c + l + payload; p[..12] == c && p[12..16] == l && p[16..] == payload
  {
  }

  lemma ResponseRoundTrip(r: Response)
    requires ResponseInRange(r)
    ensures UnpackResponse(ResponseImage(r)) == Accepted(r)
  {
    hide BE16, BE32, FromBE16, FromBE32, Common;
    var p := ResponseImage(r);
    ResponseSlices(Common(r.status, r.fmt, r.mid, r.receiver), BE32(|r.payload|), r.payload);
    CommonFields(p, r.status, r.fmt, r.mid, r.receiver);
    BE32Inverse(|r.payload|);
  }

  /**
   The 32-bit length check means that header, URL field and payload tile the packet exactly when
   the URL field ends inside it.
   */
  lemma LengthCheckTiles(packet: seq<byte>)
    requires REQUEST_FIX_LEN <= |packet| < 0x8000_0000 && LengthsAgree(packet)
    ensures REQUEST_FIX_LEN + UrlLenField(packet) + PayloadLenField(packet) == |packet|
            <==> REQUEST_FIX_LEN + UrlLenField(packet) <= |packet|
  {
  }

  /** The version, size and length checks pass. */
  predicate Checked(packet: seq<byte>)
    requires packet != []
  {
    packet[0] == PACKET_VER && |packet| >= REQUEST_FIX_LEN && LengthsAgree(packet)
  }

  /** The byte tested for the terminator is behind the packet, or there is no URL field and no NUL to end the URL. */
  predicate ReadsPast(packet: seq<byte>)
    requires |packet| >= REQUEST_FIX_LEN
  {
    var urlLen, payloadLen := UrlLenField(packet), PayloadLenField(packet);
    || REQUEST_FIX_LEN + urlLen + payloadLen != |packet|
    || (urlLen == 0 && payloadLen % 256 == 0 && 0 !in packet[REQUEST_FIX_LEN..])
  }

  /** The byte before the payload is NUL: the last one of the URL field or, without one, of the payload length. */
  predicate Terminated(packet: seq<byte>)
    requires |packet| >= REQUEST_FIX_LEN
  {
    var n := REQUEST_FIX_LEN + UrlLenField(packet);
    n <= |packet| && packet[n - 1] == 0
  }

  lemma LastLengthByte(packet: seq<byte>)
    requires |packet| >= REQUEST_FIX_LEN
    ensures packet[17] == PayloadLenField(packet) % 256
  {
    assert packet[14..18][3] == packet[17];
  }

  /**
   Which packets are accepted, and for which the outcome is open. An accepted request tiles its packet; every check that
   passes only modulo 2^32 ends past the packet, and so does an empty URL field with no NUL behind it.
   */
  lemma AcceptedRequestTiles(packet: seq<byte>)
    requires 1 <= |packet| < 0x8000_0000
    ensures UnpackRequest(packet).Accepted? ==>
              && |packet| == REQUEST_FIX_LEN + UrlLenField(packet) + PayloadLenField(packet)
              && |UnpackRequest(packet).value.payload| == PayloadLenField(packet)
              && (UrlLenField(packet) > 0 ==> |UnpackRequest(packet).value.url| < UrlLenField(packet))
    ensures UnpackRequest(packet).PastEnd? <==> Checked(packet) && ReadsPast(packet)
    ensures UnpackRequest(packet).Accepted? <==> Checked(packet) && !ReadsPast(packet) && Terminated(packet)
  {
    hide FromBE16, FromBE32;
    if |packet| >= REQUEST_FIX_LEN && LengthsAgree(packet) {
      LengthCheckTiles(packet);
      LastLengthByte(packet);
      var urlLen: int := UrlLenField(packet);
      if urlLen > 0 && Terminated(packet) {
        var s := packet[REQUEST_FIX_LEN..];
        assert s[urlLen - 1] == 0 && (forall i | 0 <= i < |CString(s)| :: s[i] != 0);
      }
    }
  }

  /** Two packets that cannot be read: lengths that agree modulo 2^32 only, and a header with nothing behind it. */
  lemma UnreadablePackets()
    ensures UnpackRequest([1] + Zeros(11) + [0, 100, 0xFF, 0xFF, 0xFF, 0x9E, 0, 0]).PastEnd?
    ensures UnpackRequest([1] + Zeros(17)).PastEnd?
  {
    var p: seq<byte> := [1] + Zeros(11) + [0, 100, 0xFF, 0xFF, 0xFF, 0x9E, 0, 0];
    assert p[12..14] == [0, 100] && p[14..18] == [0xFF, 0xFF, 0xFF, 0x9E];
    var q: seq<byte> := [1] + Zeros(17);
    assert q[12..14] == [0, 0] && q[14..18] == [0, 0, 0, 0];
  }

  /** The URL field of the packet is one C string: non-empty, its only NUL the last byte. */
  predicate SingleString(packet: seq<byte>)
    requires |packet| >= REQUEST_FIX_LEN
  {
    var urlLen: int := UrlLenField(packet);
    urlLen > 0 && REQUEST_FIX_LEN + urlLen <= |packet| && 0 !in packet[REQUEST_FIX_LEN..REQUEST_FIX_LEN + urlLen - 1]
  }

  /** Repacking what an accepted packet holds gives the packet back exactly when its URL field is a single C string. */
  lemma RequestRepack(packet: seq<byte>)
    requires 1 <= |packet| < 0x8000_0000
    requires UnpackRequest(packet).Accepted?
    ensures RequestImage(UnpackRequest(packet).value) == packet <==> SingleString(packet)
  {
    AcceptedRequestTiles(packet);
    var r, urlLen := UnpackRequest(packet).value, UrlLenField(packet);
    if |r.url| + 1 == urlLen {
      assert r.url == packet[18..][..|r.url|] == packet[18..18 + urlLen - 1];
      LengthMatches(packet, r);
    } else if SingleString(packet) {
      SingleStringUrl(packet);
    }
  }

  /** A packet that does not repack: its URL field is two NULs. */
  lemma TwoTerminators()
    ensures var p: seq<byte> := [1] + Zeros(12) + [2] + Zeros(6);
            UnpackRequest(p).Accepted? && RequestImage(UnpackRequest(p).value) != p
  {
    var p: seq<byte> := [1] + Zeros(12) + [2] + Zeros(6);
    assert p[12..14] == [0, 2] && p[14..18] == [0, 0, 0, 0];
    assert p[18..] == [0, 0];
    RequestRepack(p);
    assert p[18..19] == [0];
  }

  lemma LengthMatches(packet: seq<byte>, r: Request)
    requires 1 <= |packet| < 0x8000_0000 && UnpackRequest(packet) == Accepted(r)
    requires |r.url| + 1 == UrlLenField(packet) && |r.payload| == PayloadLenField(packet)
    ensures RequestImage(r) == packet
  {
    hide BE16, BE32, FromBE16, FromBE32, Common;
    var urlLen := UrlLenField(packet);
    var header := Common(r.action, r.fmt, r.mid, r.sender) + BE16(urlLen) + BE32(|r.payload|);
    assert header == packet[..18] by { FieldsRebuild(packet); }
    Reassemble(packet, header, r.url, 18 + urlLen);
  }

  lemma Reassemble(packet: seq<byte>, header: seq<byte>, url: seq<byte>, n: nat)
    requires 18 < n <= |packet| && header == packet[..18] && url == packet[18..n - 1] && packet[n - 1] == 0
    ensures header + url + [0] + packet[n..] == packet
  {
  }

  /** Reading the header fields and writing them again gives the header back. */
  lemma FieldsRebuild(packet: seq<byte>)
    requires |packet| >= REQUEST_FIX_LEN && packet[0] == PACKET_VER
    ensures Common(packet[1], FromBE16(packet[2..4]), FromBE32(packet[4..8]), FromBE32(packet[8..12]))
            + BE16(UrlLenField(packet)) + BE32(PayloadLenField(packet)) == packet[..18]
  {
    HeaderRebuild(packet);
    FromBE32Inverse(packet[14..18]);
    Image16(0, packet[12..14]);
    assert packet[..18] == packet[..12] + packet[12..14] + packet[14..18];
  }

  lemma HeaderRebuild(packet: seq<byte>)
    requires |packet| >= 12 && packet[0] == PACKET_VER
    ensures Common(packet[1], FromBE16(packet[2..4]), FromBE32(packet[4..8]), FromBE32(packet[8..12])) == packet[..12]
  {
    FromBE32Inverse(packet[4..8]);
    FromBE32Inverse(packet[8..12]);
    Image16(0, packet[2..4]);
  }

  lemma SingleStringUrl(packet: seq<byte>)
    requires 1 <= |packet| < 0x8000_0000 && UnpackRequest(packet).Accepted? && SingleString(packet)
    ensures UnpackRequest(packet).value.url == packet[18..18 + UrlLenField(packet) - 1]
  {
    var urlLen: int := UrlLenField(packet);
    var s := packet[18..];
    assert s == packet[18..18 + urlLen - 1] + [0] + packet[18 + urlLen..];
    CStringOf(packet[18..18 + urlLen - 1], packet[18 + urlLen..]);
  }

  /** Every accepted response packet repacks to itself. */
  lemma ResponseRepack(packet: seq<byte>)
    requires 1 <= |packet| < 0x8000_0000
    requires UnpackResponse(packet).Accepted?
    ensures ResponseImage(UnpackResponse(packet).value) == packet
  {
    hide BE16, BE32, FromBE16, FromBE32, Common;
    HeaderRebuild(packet);
    FromBE32Inverse(packet[12..16]);
    assert packet == packet[..12] + packet[12..16] + packet[16..];
  }
}
