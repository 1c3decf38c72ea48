/**
 AOT files: the batch parser of core/iwasm/aot/aot_loader.c (`create_sections` with `resolve_native_symbols`).
 The loader's buffer is 4-byte aligned, so aligning a pointer is aligning its offset.
 */
module AotFile {
  import opened Bytes
  import opened Install

  function Align4(p: nat): (q: nat)
    ensures p <= q < p + 4 && q % 4 == 0
  {
    (p + 3) / 4 * 4
  }

  function U32At(buf: seq<byte>, p: nat): uint32
    requires p + 4 <= |buf|
  {
    FromLE32(buf[p..p + 4])
  }

  predicate LoadableKind(kind: uint32) {
    kind < AOT_SIGNATURE || kind == AOT_CUSTOM
  }

  /** A record header at aligned offset `q` with its body inside the buffer. */
  predicate RecordAt(buf: seq<byte>, q: nat) {
    q + 8 <= |buf| && q + 8 + U32At(buf, q + 4) <= |buf|
  }

  function RecordEnd(buf: seq<byte>, q: nat): (e: nat)
    requires RecordAt(buf, q)
    ensures q + 8 <= e <= |buf|
  {
    q + 8 + U32At(buf, q + 4)
  }

  /** The sections from offset `p` to the end, as they lie in the file. */
  function RawSections(buf: seq<byte>, p: nat): Option<seq<Section>>
    decreases |buf| - p
  {
    if p >= |buf| then Some([])
    else
      var q := Align4(p);
      if q + 4 > |buf| || !LoadableKind(U32At(buf, q)) || !RecordAt(buf, q) then None
      else
        match RawSections(buf, RecordEnd(buf, q))
        case None => None
        case Some(rest) => Some([Section(U32At(buf, q), U32At(buf, q + 4), buf[q + 8..RecordEnd(buf, q)])] + rest)
  }

  /** `resolve_native_symbols`: the native symbol count, 0 when there is no native-symbol section. */
  function NativeSymbols(buf: seq<byte>, p: nat): Option<uint32>
    decreases |buf| - p
  {
    if p >= |buf| then Some(0)
    else
      var q := Align4(p);
      if q + 4 > |buf| then None
      else if U32At(buf, q) > AOT_SIGNATURE && U32At(buf, q) != AOT_CUSTOM then Some(0)
      else if !RecordAt(buf, q) then None
      else if U32At(buf, q) == AOT_CUSTOM && q + 12 > |buf| then None
      else if U32At(buf, q) == AOT_CUSTOM && U32At(buf, q + 8) == 1 then
        if q + 16 > |buf| then None else Some(U32At(buf, q + 12))
      else NativeSymbols(buf, RecordEnd(buf, q))
  }

  /** Text is mapped with room for the PLT only when there are no native symbols. */
  function Placed(cfg: Config, native: uint32, s: Section): Section {
    if native == 0 && s.size > 0 then PadText(cfg, s) else s
  }

  function AllPlaced(cfg: Config, native: uint32, ss: seq<Section>): (r: seq<Section>)
    ensures |r| == |ss| && forall i | 0 <= i < |ss| :: r[i] == Placed(cfg, native, ss[i])
  {
    seq(|ss|, i requires 0 <= i < |ss| => Placed(cfg, native, ss[i]))
  }

  predicate TextFits(cfg: Config, s: Section) {
    s.kind == AOT_TEXT && s.size > 0 ==> PaddedTextSize(cfg, s.size) < UINT32_MAX
  }

  predicate AllTextFits(cfg: Config, ss: seq<Section>) {
    forall i | 0 <= i < |ss| :: TextFits(cfg, ss[i])
  }

  /** `create_sections` as one value. */
  function CreatedSections(cfg: Config, buf: seq<byte>): Option<seq<Section>> {
    match (NativeSymbols(buf, 8), RawSections(buf, 8))
    case (Some(native), Some(raw)) =>
      if raw == [] || (native == 0 && !AllTextFits(cfg, raw)) then None else Some(AllPlaced(cfg, native, raw))
    case _ => None
  }

  method ResolveNativeSymbols(buf: seq<byte>) returns (r: Option<uint32>)
    ensures r == NativeSymbols(buf, 8)
  {
    var p := 8;
    while p < |buf|
      invariant NativeSymbols(buf, p) == NativeSymbols(buf, 8)
    {
      p := Align4(p);
      if p + 4 > |buf| {
        return None;
      }
      var kind := U32At(buf, p);
      if kind <= AOT_SIGNATURE || kind == AOT_CUSTOM {
        if !RecordAt(buf, p) {
          return None;
        }
        var end := RecordEnd(buf, p);
        if kind == AOT_CUSTOM {
          if p + 12 > |buf| {
            return None;
          }
          if U32At(buf, p + 8) == 1 {
            if p + 16 > |buf| {
              return None;
            }
            return Some(U32At(buf, p + 12));
          }
        }
        p := end;
      } else {
        return Some(0);
      }
    }
    r := Some(0);
  }

  /** `create_sections`: the section list is built at its tail as the cursor moves over the buffer. */
  method CreateSections(cfg: Config, buf: seq<byte>) returns (r: Option<seq<Section>>)
    ensures r == CreatedSections(cfg, buf)
  {
    hide FromLE32, PaddedTextSize, PaddedTextSize32;
    var native := ResolveNativeSymbols(buf);
    if native == None {
      return None;
    }
    var p := 8;
    var list: seq<Section> := [];
    ghost var raw: seq<Section> := [];
    BeforeNil(RawSections(buf, 8));
    while p < |buf|
      invariant RawSections(buf, 8) == Before(raw, RawSections(buf, p))
      invariant list == AllPlaced(cfg, native.value, raw)
      invariant native.value == 0 ==> AllTextFits(cfg, raw)
    {
      ghost var later := RawSections(buf, p);
      p := Align4(p);
      if p + 4 > |buf| {
        return None;
      }
      var kind := U32At(buf, p);
      if !LoadableKind(kind) {
        return None;
      }
      if !RecordAt(buf, p) {
        return None;
      }
      var size, end := U32At(buf, p + 4), RecordEnd(buf, p);
      var section := Section(kind, size, buf[p + 8..end]);
      ghost var s := section;
      assert later == Before([s], RawSections(buf, end));
      BeforeTwice(raw, [s], RawSections(buf, end));
      if kind == AOT_TEXT && size > 0 && native.value == 0 {
        var total := PaddedTextSize(cfg, size);
        if total >= UINT32_MAX {
          NotFitting(cfg, raw, s, RawSections(buf, end));
          return None;
        }
        SmallPaddedSize(cfg, size);
        if total > size {
          section := Section(kind, total, section.body + Zeros(total - size));
        }
      }
      list := list + [section];
      assert section == Placed(cfg, native.value, s);
      raw := raw + [s];
      p := end;
    }
    assert raw + [] == raw;
    if list == [] {
      return None;
    }
    r := Some(list);
  }

  function Before(a: seq<Section>, b: Option<seq<Section>>): Option<seq<Section>> {
    match b
    case None => None
    case Some(ss) => Some(a + ss)
  }

  lemma BeforeNil(b: Option<seq<Section>>)
    ensures Before([], b) == b
  {
    if b.Some? {
      assert [] + b.value == b.value;
    }
  }

  lemma BeforeTwice(a: seq<Section>, b: seq<Section>, c: Option<seq<Section>>)
    ensures Before(a, Before(b, c)) == Before(a + b, c)
  {
    if c.Some? {
      assert a + (b + c.value) == a + b + c.value;
    }
  }

  /** A text section that is too big spoils the list it is in. */
  lemma NotFitting(cfg: Config, raw: seq<Section>, s: Section, rest: Option<seq<Section>>)
    requires !TextFits(cfg, s)
    ensures var all := Before(raw + [s], rest); all == None || !AllTextFits(cfg, all.value)
  {
    if rest.Some? {
      assert (raw + [s] + rest.value)[|raw|] == s;
    }
  }

  /** Below the limit the 32-bit and the 64-bit computation of the text size agree. */
  lemma SmallPaddedSize(cfg: Config, size: uint32)
    requires PaddedTextSize(cfg, size) < UINT32_MAX
    ensures PaddedTextSize32(cfg, size) == PaddedTextSize(cfg, size)
  {
    assert size + cfg.pltSize + 3 < 0x1_0000_0000;
  }
}
