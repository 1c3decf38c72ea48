/**
 The migration image of interpreter frames: core/iwasm/common/wasm_dump.c and its reader in wasm_restore.c (classic
 interpreter). An image holds offsets, not addresses; -1 marks a NULL pointer.
 */
module FrameImage {
  import opened Bytes

  const FRAME_TYPE: uint32 := 80

  const NULL32: uint32 := 0xFFFF_FFFF
  const NULL64: uint64 := 0xFFFF_FFFF_FFFF_FFFF

  /**
   The cell counts of a function and the size of its block stack; `Functions` keys them by the function's offset in the
   pool.
   */
  datatype Function = Function(params: nat, locals: nat, maxStack: nat, maxBlocks: nat)

  type Functions = map<uint32, Function>

  datatype BlockView = BlockView(begin: Option<uint64>, target: Option<uint64>, frameSp: Option<uint64>,
                                 cellNum: uint32)

  /** A frame as the image shows it. Offsets are from the pool, the function's code and the bottom of the stack. */
  datatype View =
    | NoFunction
    | Running(fn: uint32, ip: uint64, sp: uint64, blocks: seq<BlockView>,
              params: seq<uint32>, locals: seq<uint32>, stack: seq<uint32>)

  predicate CellsFit(f: Function, v: View)
    requires v.Running?
  {
    |v.params| == f.params && |v.locals| == f.locals && |v.stack| == f.maxStack
  }

  /** The counts of a view are those of its function, and its blocks fit the block stack. */
  predicate Fits(fs: Functions, v: View) {
    v.Running? ==>
      && v.fn in fs && |v.blocks| < 0x1_0000_0000 && |v.blocks| <= fs[v.fn].maxBlocks && CellsFit(fs[v.fn], v)
  }

  // Writing

  function Mark(o: Option<uint64>): uint64 {
    if o.None? then NULL64 else o.value
  }

  function BlockImage(b: BlockView): (s: seq<byte>)
    ensures |s| == 28
  {
    LE64(Mark(b.begin)) + (LE64(Mark(b.target)) + (LE64(Mark(b.frameSp)) + LE32(b.cellNum)))
  }

  function BlocksImage(bs: seq<BlockView>): seq<byte> {
    if bs == [] then [] else BlockImage(bs[0]) + BlocksImage(bs[1..])
  }

  function CellsImage(cells: seq<uint32>): seq<byte> {
    if cells == [] then [] else LE32(cells[0]) + CellsImage(cells[1..])
  }

  function CellParts(v: View): seq<byte>
    requires v.Running?
  {
    CellsImage(v.params) + (CellsImage(v.locals) + CellsImage(v.stack))
  }

  function BlockPart(v: View): seq<byte>
    requires v.Running? && |v.blocks| < 0x1_0000_0000
  {
    LE32(|v.blocks|) + (BlocksImage(v.blocks) + CellParts(v))
  }

  /** What follows the header. */
  function Body(v: View): seq<byte>
    requires v.Running? ==> |v.blocks| < 0x1_0000_0000
  {
    if v.NoFunction? then LE32(NULL32)
    else LE32(v.fn) + (LE64(v.ip) + (LE64(v.sp) + BlockPart(v)))
  }

  // Reading. `None` where the input ends early or holds more blocks than the frame has room for, neither of which the
  // source notices, or the function is not known.

  function Read32(s: seq<byte>): (r: Option<(uint32, seq<byte>)>)
    ensures r.Some? ==> |r.value.1| == |s| - 4
  {
    if |s| < 4 then None else Some((FromLE32(s[..4]), s[4..]))
  }

  function Read64(s: seq<byte>): (r: Option<(uint64, seq<byte>)>)
    ensures r.Some? ==> |r.value.1| == |s| - 8
  {
    if |s| < 8 then None else Some((FromLE64(s[..8]), s[8..]))
  }

  function Unmark(n: uint64): Option<uint64> {
    if n == NULL64 then None else Some(n)
  }

  function ReadMark(s: seq<byte>): (r: Option<(Option<uint64>, seq<byte>)>)
    ensures r.Some? ==> |r.value.1| <= |s|
  {
    match Read64(s)
    case None => None
    case Some((n, rest)) => Some((Unmark(n), rest))
  }

  function ReadBlock(s: seq<byte>): (r: Option<(BlockView, seq<byte>)>)
    ensures r.Some? ==> |r.value.1| <= |s|
  {
    match ReadMark(s)
    case None => None
    case Some((begin, s1)) =>
      match ReadMark(s1)
      case None => None
      case Some((target, s2)) =>
        match ReadMark(s2)
        case None => None
        case Some((frameSp, s3)) =>
          match Read32(s3)
          case None => None
          case Some((n, s4)) => Some((BlockView(begin, target, frameSp, n), s4))
  }

  function ReadBlocks(s: seq<byte>, n: nat): (r: Option<(seq<BlockView>, seq<byte>)>)
    ensures r.Some? ==> |r.value.1| <= |s| && |r.value.0| == n
  {
    if n == 0 then Some(([], s))
    else
      match ReadBlock(s)
      case None => None
      case Some((b, s1)) =>
        match ReadBlocks(s1, n - 1)
        case None => None
        case Some((bs, s2)) => Some(([b] + bs, s2))
  }

  function ReadCells(s: seq<byte>, n: nat): (r: Option<(seq<uint32>, seq<byte>)>)
    ensures r.Some? ==> |r.value.1| <= |s| && |r.value.0| == n
  {
    if n == 0 then Some(([], s))
    else
      match Read32(s)
      case None => None
      case Some((c, s1)) =>
        match ReadCells(s1, n - 1)
        case None => None
        case Some((cs, s2)) => Some(([c] + cs, s2))
  }

  function ReadCellParts(s: seq<byte>, f: Function): (r: Option<(seq<uint32>, seq<uint32>, seq<uint32>, seq<byte>)>)
    ensures r.Some? ==> |r.value.3| <= |s|
  {
    match ReadCells(s, f.params)
    case None => None
    case Some((params, s1)) =>
      match ReadCells(s1, f.locals)
      case None => None
      case Some((locals, s2)) =>
        match ReadCells(s2, f.maxStack)
        case None => None
        case Some((stack, s3)) => Some((params, locals, stack, s3))
  }

  function ReadBlockPart(s: seq<byte>, max: nat): (r: Option<(seq<BlockView>, seq<byte>)>)
    ensures r.Some? ==> |r.value.1| <= |s|
  {
    match Read32(s)
    case None => None
    case Some((n, s1)) => if n > max then None else ReadBlocks(s1, n)
  }

  function ReadRegisters(s: seq<byte>): (r: Option<(uint64, uint64, seq<byte>)>)
    ensures r.Some? ==> |r.value.2| <= |s|
  {
    match Read64(s)
    case None => None
    case Some((ip, s1)) =>
      match Read64(s1)
      case None => None
      case Some((sp, s2)) => Some((ip, sp, s2))
  }

  function ReadRunning(fs: Functions, fn: uint32, s: seq<byte>): (r: Option<(View, seq<byte>)>)
    requires fn in fs
    ensures r.Some? ==> |r.value.1| <= |s|
  {
    match ReadRegisters(s)
    case None => None
    case Some((ip, sp, s1)) =>
      match ReadBlockPart(s1, fs[fn].maxBlocks)
      case None => None
      case Some((blocks, s2)) =>
        match ReadCellParts(s2, fs[fn])
        case None => None
        case Some((params, locals, stack, s3)) => Some((Running(fn, ip, sp, blocks, params, locals, stack), s3))
  }

  function ReadBody(fs: Functions, s: seq<byte>): (r: Option<(View, seq<byte>)>)
    ensures r.Some? ==> |r.value.1| <= |s|
  {
    match Read32(s)
    case None => None
    case Some((p, s1)) =>
      if p == NULL32 then Some((NoFunction, s1)) else if p !in fs then None else ReadRunning(fs, p, s1)
  }

  // Reading back what was written

  lemma Read32Written(n: uint32, rest: seq<byte>)
    ensures Read32(LE32(n) + rest) == Some((n, rest))
  {
    hide LE32, FromLE32;
    LE32Inverse(n);
    var s := LE32(n) + rest;
    assert s[..4] == LE32(n) && s[4..] == rest;
  }

  lemma Read64Written(n: uint64, rest: seq<byte>)
    ensures Read64(LE64(n) + rest) == Some((n, rest))
  {
    hide LE64, FromLE64;
    LE64Inverse(n);
    var s := LE64(n) + rest;
    assert s[..8] == LE64(n) && s[8..] == rest;
  }

  /** A block as it reads back: an offset equal to the mark is taken for NULL. */
  function Seen(b: BlockView): BlockView {
    BlockView(Unmark(Mark(b.begin)), Unmark(Mark(b.target)), Unmark(Mark(b.frameSp)), b.cellNum)
  }

  function AllSeen(bs: seq<BlockView>): (r: seq<BlockView>)
    ensures |r| == |bs| && forall i | 0 <= i < |bs| :: r[i] == Seen(bs[i])
  {
    seq(|bs|, i requires 0 <= i < |bs| => Seen(bs[i]))
  }

  lemma BlockReadBack(b: BlockView, rest: seq<byte>)
    ensures ReadBlock(BlockImage(b) + rest) == Some((Seen(b), rest))
  {
    hide LE64, LE32, Read64, Read32;
    var s3 := LE32(b.cellNum) + rest;
    var s2 := LE64(Mark(b.frameSp)) + s3;
    var s1 := LE64(Mark(b.target)) + s2;
    assert BlockImage(b) + rest == LE64(Mark(b.begin)) + s1;
    Read64Written(Mark(b.begin), s1);
    Read64Written(Mark(b.target), s2);
    Read64Written(Mark(b.frameSp), s3);
    Read32Written(b.cellNum, rest);
  }

  lemma {:induction false} BlocksReadBack(bs: seq<BlockView>, rest: seq<byte>)
    ensures ReadBlocks(BlocksImage(bs) + rest, |bs|) == Some((AllSeen(bs), rest))
  {
    hide BlockImage, ReadBlock, Seen;
    if bs == [] {
      assert BlocksImage(bs) + rest == rest;
    } else {
      var tail := BlocksImage(bs[1..]) + rest;
      assert BlocksImage(bs) + rest == BlockImage(bs[0]) + tail;
      BlockReadBack(bs[0], tail);
      BlocksReadBack(bs[1..], rest);
      assert AllSeen(bs) == [Seen(bs[0])] + AllSeen(bs[1..]);
    }
  }

  lemma {:induction false} CellsReadBack(cells: seq<uint32>, rest: seq<byte>)
    ensures ReadCells(CellsImage(cells) + rest, |cells|) == Some((cells, rest))
  {
    hide LE32, Read32;
    if cells == [] {
      assert CellsImage(cells) + rest == rest;
    } else {
      var tail := CellsImage(cells[1..]) + rest;
      assert CellsImage(cells) + rest == LE32(cells[0]) + tail;
      Read32Written(cells[0], tail);
      CellsReadBack(cells[1..], rest);
      var c, after := cells[0], cells[1..];
      assert cells == [c] + after;
    }
  }

  lemma CellPartsReadBack(f: Function, v: View, rest: seq<byte>)
    requires v.Running? && CellsFit(f, v)
    ensures ReadCellParts(CellParts(v) + rest, f) == Some((v.params, v.locals, v.stack, rest))
  {
    hide CellsImage, ReadCells;
    var s2 := CellsImage(v.stack) + rest;
    var s1 := CellsImage(v.locals) + s2;
    assert CellParts(v) + rest == CellsImage(v.params) + s1;
    CellsReadBack(v.params, s1);
    CellsReadBack(v.locals, s2);
    CellsReadBack(v.stack, rest);
  }

  lemma BlockPartReadBack(v: View, max: nat, rest: seq<byte>)
    requires v.Running? && |v.blocks| < 0x1_0000_0000 && |v.blocks| <= max
    ensures ReadBlockPart(BlockPart(v) + rest, max) == Some((AllSeen(v.blocks), CellParts(v) + rest))
  {
    hide LE32, Read32, BlocksImage, ReadBlocks, CellParts, AllSeen;
    var cells := CellParts(v) + rest;
    var s1 := BlocksImage(v.blocks) + cells;
    assert BlockPart(v) + rest == LE32(|v.blocks|) + s1;
    Read32Written(|v.blocks|, s1);
    BlocksReadBack(v.blocks, cells);
  }

  lemma RegistersReadBack(ip: uint64, sp: uint64, rest: seq<byte>)
    ensures ReadRegisters(LE64(ip) + (LE64(sp) + rest)) == Some((ip, sp, rest))
  {
    hide LE64, Read64;
    Read64Written(ip, LE64(sp) + rest);
    Read64Written(sp, rest);
  }

  lemma RunningReadBack(fs: Functions, v: View, rest: seq<byte>)
    requires Fits(fs, v) && v.Running?
    ensures ReadRunning(fs, v.fn, LE64(v.ip) + (LE64(v.sp) + (BlockPart(v) + rest))) ==
            Some((v.(blocks := AllSeen(v.blocks)), rest))
  {
    hide LE64, BlockPart, ReadRegisters, ReadBlockPart, ReadCellParts, CellParts, AllSeen;
    RegistersReadBack(v.ip, v.sp, BlockPart(v) + rest);
    BlockPartReadBack(v, fs[v.fn].maxBlocks, rest);
    CellPartsReadBack(fs[v.fn], v, rest);
  }

  /** A frame with a known function reads back as it was, up to what the marks hide. */
  lemma BodyReadBack(fs: Functions, v: View, rest: seq<byte>)
    requires Fits(fs, v) && (v.Running? ==> v.fn != NULL32)
    ensures ReadBody(fs, Body(v) + rest) == Some((if v.NoFunction? then v else v.(blocks := AllSeen(v.blocks)), rest))
  {
    hide LE32, LE64, Read32, BlockPart, ReadRunning, AllSeen;
    if v.NoFunction? {
      Read32Written(NULL32, rest);
    } else {
      var s1 := LE64(v.ip) + (LE64(v.sp) + (BlockPart(v) + rest));
      assert Body(v) + rest == LE32(v.fn) + s1;
      Read32Written(v.fn, s1);
      RunningReadBack(fs, v, rest);
    }
  }

  // When the marks are unambiguous

  predicate ClearBlock(b: BlockView) {
    b.begin != Some(NULL64) && b.target != Some(NULL64) && b.frameSp != Some(NULL64)
  }

  /** No offset equals the mark for NULL. */
  predicate Clear(v: View) {
    v.Running? ==> v.fn != NULL32 && forall i | 0 <= i < |v.blocks| :: ClearBlock(v.blocks[i])
  }

  lemma SeenClear(bs: seq<BlockView>)
    ensures AllSeen(bs) == bs <==> forall i | 0 <= i < |bs| :: ClearBlock(bs[i])
  {
    var r := AllSeen(bs);
    assert forall i | 0 <= i < |bs| :: Seen(bs[i]) == bs[i] <==> ClearBlock(bs[i]);
    if r == bs {
      assert forall i | 0 <= i < |bs| :: r[i] == bs[i];
    }
  }

  lemma MarkedFunctionLost(fs: Functions, v: View, rest: seq<byte>)
    requires v.Running? && |v.blocks| < 0x1_0000_0000 && v.fn == NULL32
    ensures ReadBody(fs, Body(v) + rest) == Some((NoFunction, LE64(v.ip) + (LE64(v.sp) + BlockPart(v)) + rest))
  {
    hide LE32, LE64, Read32, BlockPart;
    var s1 := LE64(v.ip) + (LE64(v.sp) + BlockPart(v)) + rest;
    assert Body(v) + rest == LE32(NULL32) + s1;
    Read32Written(NULL32, s1);
  }

  /**
   The round trip: a frame's body, followed by anything, reads back as that frame and leaves what follows, exactly
   when none of its offsets is the mark for NULL.
   */
  lemma RoundTripExactlyWhen(fs: Functions, v: View, rest: seq<byte>)
    requires Fits(fs, v)
    ensures ReadBody(fs, Body(v) + rest) == Some((v, rest)) <==> Clear(v)
  {
    hide Body, ReadBody, AllSeen, ClearBlock, LE64, BlockPart;
    if v.Running? && v.fn == NULL32 {
      MarkedFunctionLost(fs, v, rest);
    } else {
      BodyReadBack(fs, v, rest);
      if v.Running? {
        SeenClear(v.blocks);
      }
    }
  }

  /** Equal bodies show equal frames, and no body is a proper prefix of another. */
  lemma UniquelyDecodable(fs: Functions, v: View, w: View, more: seq<byte>)
    requires Fits(fs, v) && Fits(fs, w) && Clear(v) && Clear(w) && Body(v) + more == Body(w)
    ensures v == w && more == []
  {
    hide Body, ReadBody, Clear;
    RoundTripExactlyWhen(fs, v, more);
    RoundTripExactlyWhen(fs, w, []);
    assert Body(w) + [] == Body(w);
  }

  // Whole images

  /** A dumped frame: its header's size and address fields, and what the body shows. */
  datatype Record = Record(size: uint32, address: uint32, view: View)

  predicate RecordOk(fs: Functions, r: Record) {
    Fits(fs, r.view) && Clear(r.view)
  }

  predicate AllOk(fs: Functions, rs: seq<Record>) {
    forall i | 0 <= i < |rs| :: RecordOk(fs, rs[i])
  }

  function RecordImage(r: Record): seq<byte>
    requires r.view.Running? ==> |r.view.blocks| < 0x1_0000_0000
  {
    LE32(FRAME_TYPE) + (LE32(r.size) + (LE32(r.address) + Body(r.view)))
  }

  function Image(fs: Functions, rs: seq<Record>): seq<byte>
    requires AllOk(fs, rs)
  {
    if rs == [] then [] else assert RecordOk(fs, rs[0]); RecordImage(rs[0]) + Image(fs, rs[1..])
  }

  function ReadHeader(s: seq<byte>): (r: Option<(uint32, uint32, seq<byte>)>)
    ensures r.Some? ==> |r.value.2| < |s|
  {
    match Read32(s)
    case None => None
    case Some((_, s1)) =>
      match Read32(s1)
      case None => None
      case Some((size, s2)) =>
        match Read32(s2)
        case None => None
        case Some((address, s3)) => Some((size, address, s3))
  }

  function ReadRecord(fs: Functions, s: seq<byte>): (r: Option<(Record, seq<byte>)>)
    ensures r.Some? ==> |r.value.1| < |s|
  {
    match ReadHeader(s)
    case None => None
    case Some((size, address, s1)) =>
      match ReadBody(fs, s1)
      case None => None
      case Some((v, s2)) => Some((Record(size, address, v), s2))
  }

  /** The loop of `restore_frame_internal`: records until no further type can be read. */
  function ReadImage(fs: Functions, s: seq<byte>): Option<seq<Record>>
    decreases |s|
  {
    if |s| < 4 then Some([])
    else
      match ReadRecord(fs, s)
      case None => None
      case Some((r, rest)) =>
        match ReadImage(fs, rest)
        case None => None
        case Some(rs) => Some([r] + rs)
  }

  lemma HeaderReadBack(size: uint32, address: uint32, rest: seq<byte>)
    ensures ReadHeader(LE32(FRAME_TYPE) + (LE32(size) + (LE32(address) + rest))) == Some((size, address, rest))
  {
    hide LE32, Read32;
    Read32Written(FRAME_TYPE, LE32(size) + (LE32(address) + rest));
    Read32Written(size, LE32(address) + rest);
    Read32Written(address, rest);
  }

  lemma RecordReadBack(fs: Functions, r: Record, rest: seq<byte>)
    requires RecordOk(fs, r)
    ensures ReadRecord(fs, RecordImage(r) + rest) == Some((r, rest)) && |RecordImage(r)| >= 4
  {
    hide LE32, Body, ReadBody, ReadHeader, Clear;
    assert RecordImage(r) + rest == LE32(FRAME_TYPE) + (LE32(r.size) + (LE32(r.address) + (Body(r.view) + rest)));
    HeaderReadBack(r.size, r.address, Body(r.view) + rest);
    RoundTripExactlyWhen(fs, r.view, rest);
  }

  /** A whole image of frames reads back as those frames in their order. */
  lemma {:induction false} ImageReadBack(fs: Functions, rs: seq<Record>)
    requires AllOk(fs, rs)
    ensures ReadImage(fs, Image(fs, rs)) == Some(rs)
  {
    hide RecordOk, RecordImage, ReadRecord;
    if rs != [] {
      var r, rest := rs[0], Image(fs, rs[1..]);
      assert RecordOk(fs, r);
      RecordReadBack(fs, r, rest);
      ImageReadBack(fs, rs[1..]);
      assert rs == [r] + rs[1..];
    }
  }

  // Where things lie in an image

  /** `part` lies in `s` at offset `p`. */
  predicate LiesAt(s: seq<byte>, p: nat, part: seq<byte>) {
    p + |part| <= |s| && s[p..p + |part|] == part
  }

  lemma LiesBehind(pre: seq<byte>, s: seq<byte>, p: nat, part: seq<byte>)
    requires LiesAt(s, p, part)
    ensures LiesAt(pre + s, |pre| + p, part)
  {
    assert (pre + s)[|pre| + p..|pre| + p + |part|] == s[p..p + |part|];
  }

  lemma LiesBefore(s: seq<byte>, post: seq<byte>, p: nat, part: seq<byte>)
    requires LiesAt(s, p, part)
    ensures LiesAt(s + post, p, part)
  {
    assert (s + post)[p..p + |part|] == s[p..p + |part|];
  }

  lemma LiesFirst(part: seq<byte>, post: seq<byte>)
    ensures LiesAt(part + post, 0, part)
  {
  }

  lemma {:induction false} BlocksAt(bs: seq<BlockView>, i: nat)
    requires i < |bs|
    ensures |BlocksImage(bs)| == 28 * |bs| && LiesAt(BlocksImage(bs), 28 * i, BlockImage(bs[i]))
  {
    hide BlockImage, LiesAt;
    var rest := BlocksImage(bs[1..]);
    BlocksLength(bs);
    if i == 0 {
      LiesFirst(BlockImage(bs[0]), rest);
    } else {
      BlocksAt(bs[1..], i - 1);
      LiesBehind(BlockImage(bs[0]), rest, 28 * (i - 1), BlockImage(bs[i]));
    }
  }

  lemma {:induction false} BlocksLength(bs: seq<BlockView>)
    ensures |BlocksImage(bs)| == 28 * |bs|
  {
    hide BlockImage;
    if bs != [] {
      BlocksLength(bs[1..]);
    }
  }

  lemma {:induction false} CellsAt(cells: seq<uint32>, i: nat)
    requires i < |cells|
    ensures LiesAt(CellsImage(cells), 4 * i, LE32(cells[i]))
  {
    hide LE32, LiesAt;
    var rest := CellsImage(cells[1..]);
    if i == 0 {
      LiesFirst(LE32(cells[0]), rest);
    } else {
      CellsAt(cells[1..], i - 1);
      LiesBehind(LE32(cells[0]), rest, 4 * (i - 1), LE32(cells[i]));
    }
  }

  lemma {:induction false} CellsLength(cells: seq<uint32>)
    ensures |CellsImage(cells)| == 4 * |cells|
  {
    hide LE32;
    if cells != [] {
      CellsLength(cells[1..]);
    }
  }

  /** Every cell lies at its place, four bytes each. */
  predicate CellsLie(s: seq<byte>, p: nat, cells: seq<uint32>) {
    forall i | 0 <= i < |cells| :: LiesAt(s, p + 4 * i, LE32(cells[i]))
  }

  lemma CellsLieWithin(pre: seq<byte>, cells: seq<uint32>, post: seq<byte>)
    ensures CellsLie(pre + (CellsImage(cells) + post), |pre|, cells)
  {
    hide LE32, LiesAt, CellsImage;
    forall i | 0 <= i < |cells| ensures LiesAt(pre + (CellsImage(cells) + post), |pre| + 4 * i, LE32(cells[i])) {
      CellsAt(cells, i);
      LiesBefore(CellsImage(cells), post, 4 * i, LE32(cells[i]));
      LiesBehind(pre, CellsImage(cells) + post, 4 * i, LE32(cells[i]));
    }
  }

  /** One block: begin, target and stack offset of eight bytes each, then the cell count. */
  predicate BlockLies(s: seq<byte>, p: nat, b: BlockView) {
    && LiesAt(s, p, LE64(Mark(b.begin))) && LiesAt(s, p + 8, LE64(Mark(b.target)))
    && LiesAt(s, p + 16, LE64(Mark(b.frameSp))) && LiesAt(s, p + 24, LE32(b.cellNum))
  }

  lemma BlockParts(s: seq<byte>, p: nat, b: BlockView)
    requires LiesAt(s, p, BlockImage(b))
    ensures BlockLies(s, p, b)
  {
    hide LE64, LE32;
    var e := BlockImage(b);
    SliceOfSlice(s, p, 28, 0, 8);
    SliceOfSlice(s, p, 28, 8, 16);
    SliceOfSlice(s, p, 28, 16, 24);
    SliceOfSlice(s, p, 28, 24, 28);
    assert e[0..8] == LE64(Mark(b.begin)) && e[8..16] == LE64(Mark(b.target));
    assert e[16..24] == LE64(Mark(b.frameSp)) && e[24..28] == LE32(b.cellNum);
  }

  lemma BlocksLieWithin(pre: seq<byte>, bs: seq<BlockView>, post: seq<byte>)
    ensures forall i | 0 <= i < |bs| :: BlockLies(pre + (BlocksImage(bs) + post), |pre| + 28 * i, bs[i])
  {
    hide BlockImage, LiesAt, BlocksImage, BlockLies;
    var s := pre + (BlocksImage(bs) + post);
    forall i | 0 <= i < |bs| ensures BlockLies(s, |pre| + 28 * i, bs[i]) {
      BlocksAt(bs, i);
      LiesBefore(BlocksImage(bs), post, 28 * i, BlockImage(bs[i]));
      LiesBehind(pre, BlocksImage(bs) + post, 28 * i, BlockImage(bs[i]));
      BlockParts(s, |pre| + 28 * i, bs[i]);
    }
  }

  /** The fixed part of a frame that runs a function: offset of the function, of the code position, of the stack top. */
  predicate FixedLies(s: seq<byte>, v: View)
    requires v.Running? && |v.blocks| < 0x1_0000_0000
  {
    && LiesAt(s, 12, LE32(v.fn)) && LiesAt(s, 16, LE64(v.ip)) && LiesAt(s, 24, LE64(v.sp))
    && LiesAt(s, 32, LE32(|v.blocks|))
  }

  lemma FixedParts(h: seq<byte>, a: seq<byte>, b: seq<byte>, c: seq<byte>, d: seq<byte>, rest: seq<byte>)
    requires |h| == 12 && |a| == 4 && |b| == 8 && |c| == 8 && |d| == 4
    ensures var s := h + (a + (b + (c + (d + rest))));
            LiesAt(s, 12, a) && LiesAt(s, 16, b) && LiesAt(s, 24, c) && LiesAt(s, 32, d)
    ensures h + (a + (b + (c + (d + rest)))) == (h + a + b + c + d) + rest
  {
  }

  lemma HeaderParts(a: seq<byte>, b: seq<byte>, c: seq<byte>, rest: seq<byte>)
    requires |a| == 4 && |b| == 4 && |c| == 4
    ensures var s := a + (b + (c + rest));
            LiesAt(s, 0, a) && LiesAt(s, 4, b) && LiesAt(s, 8, c) && LiesAt(s, 12, rest) && s == (a + b + c) + rest
  {
  }

  /**
   The record of a frame, byte for byte: type 80, size and address; the function's offset or -1; code position and stack
   top; the number of blocks and the blocks, 28 bytes each; then the cells of parameters, locals and operand stack.
   */
  lemma RecordLaidOut(r: Record)
    requires r.view.Running? ==> |r.view.blocks| < 0x1_0000_0000
    ensures var s, v := RecordImage(r), r.view;
            && LiesAt(s, 0, LE32(80)) && LiesAt(s, 4, LE32(r.size)) && LiesAt(s, 8, LE32(r.address))
            && (v.NoFunction? ==> |s| == 16 && LiesAt(s, 12, LE32(0xFFFF_FFFF)))
            && (v.Running? ==>
                  var p := 36 + 28 * |v.blocks|;
                  var q := p + 4 * |v.params|;
                  && FixedLies(s, v) && (forall i | 0 <= i < |v.blocks| :: BlockLies(s, 36 + 28 * i, v.blocks[i]))
                  && CellsLie(s, p, v.params) && CellsLie(s, q, v.locals) && CellsLie(s, q + 4 * |v.locals|, v.stack)
                  && |s| == q + 4 * |v.locals| + 4 * |v.stack|)
  {
    hide LE32, LE64, LiesAt, BlocksImage, CellsImage, BlockLies, CellsLie;
    HeaderParts(LE32(FRAME_TYPE), LE32(r.size), LE32(r.address), Body(r.view));
    if r.view.Running? {
      RunningLaidOut(LE32(FRAME_TYPE) + LE32(r.size) + LE32(r.address), r.view);
    }
  }

  lemma RunningLaidOut(h: seq<byte>, v: View)
    requires |h| == 12 && v.Running? && |v.blocks| < 0x1_0000_0000
    ensures var s, p := h + Body(v), 36 + 28 * |v.blocks|;
            var q := p + 4 * |v.params|;
            && FixedLies(s, v) && (forall i | 0 <= i < |v.blocks| :: BlockLies(s, 36 + 28 * i, v.blocks[i]))
            && CellsLie(s, p, v.params) && CellsLie(s, q, v.locals) && CellsLie(s, q + 4 * |v.locals|, v.stack)
            && |s| == q + 4 * |v.locals| + 4 * |v.stack|
  {
    hide LE32, LE64, LiesAt, BlocksImage, CellsImage, BlockLies, CellsLie;
    var blocks, params, locals, stack :=
      BlocksImage(v.blocks), CellsImage(v.params), CellsImage(v.locals), CellsImage(v.stack);
    FixedParts(h, LE32(v.fn), LE64(v.ip), LE64(v.sp), LE32(|v.blocks|), blocks + CellParts(v));
    var fixed := h + LE32(v.fn) + LE64(v.ip) + LE64(v.sp) + LE32(|v.blocks|);
    var s := fixed + (blocks + CellParts(v));
    BlocksLength(v.blocks);
    CellsLength(v.params);
    CellsLength(v.locals);
    CellsLength(v.stack);
    BlocksLieWithin(fixed, v.blocks, CellParts(v));
    assert s == (fixed + blocks) + (params + (locals + stack));
    CellsLieWithin(fixed + blocks, v.params, locals + stack);
    assert s == (fixed + blocks + params) + (locals + stack);
    CellsLieWithin(fixed + blocks + params, v.locals, stack);
    assert s == (fixed + blocks + params + locals) + (stack + []);
    CellsLieWithin(fixed + blocks + params + locals, v.stack, []);
  }
}
