/**
 The frame image file: `dump_WASMInterpFrame` in core/iwasm/common/wasm_dump.c appends to it,
 `restore_WASMInterpFrame` and `restore_frame_internal` in wasm_restore.c read it back.
 */
module FrameStream {
  import opened Bytes
  import opened FrameImage
  import opened Migration

  class Stream {
    var data: seq<byte>
    var pos: nat

    ghost predicate Valid()
      reads this
    {
      pos <= |data|
    }

    ghost function Rest(): seq<byte>
      requires Valid()
      reads this
    {
      data[pos..]
    }

    constructor (image: seq<byte>)
      ensures Valid() && data == image && pos == 0 && Rest() == image
    {
      data, pos := image, 0;
    }

    // Dumping

    method Write32(n: uint32)
      modifies this`data
      ensures data == old(data) + LE32(n)
    {
      data := data + LE32(n);
    }

    method Write64(n: uint64)
      modifies this`data
      ensures data == old(data) + LE64(n)
    {
      data := data + LE64(n);
    }

    /** One block: three offsets, or -1 for NULL, and the cell count. */
    method DumpBlock(b: Block, code: uint64, bottom: uint64)
      modifies this`data
      ensures data == old(data) + BlockImage(BlockViewOf(code, bottom, b))
    {
      hide LE32, LE64, Word;
      Write64(if b.begin == 0 then NULL64 else Word(b.begin - code));
      Write64(if b.target == 0 then NULL64 else Word(b.target - code));
      Write64(if b.frameSp == 0 then NULL64 else Word((b.frameSp - bottom) / CELL));
      Write32(b.cellNum);
    }

    method DumpBlocks(bs: seq<Block>, code: uint64, bottom: uint64)
      modifies this`data
      ensures data == old(data) + BlocksImage(BlockViewsOf(code, bottom, bs))
    {
      hide BlockImage, BlockViewOf;
      ghost var vs := BlockViewsOf(code, bottom, bs);
      for i := 0 to |bs|
        invariant data + BlocksImage(vs[i..]) == old(data) + BlocksImage(vs)
      {
        assert vs[i..][1..] == vs[i + 1..];
        DumpBlock(bs[i], code, bottom);
      }
      assert vs[|bs|..] == [] && data + [] == data;
    }

    /** The part of `dump_WASMInterpFrame` behind the function offset. */
    method DumpRunning(s: Space, node: Frame)
      requires Located(s, node) && node.instance != 0 && |node.blocks| < 0x1_0000_0000
      modifies this`data
      ensures old(data) <= data && LE32(ViewOf(s, node).fn) + data[|old(data)|..] == Body(ViewOf(s, node))
    {
      hide LE32, LE64, BlocksImage, CellsImage, Word, BlockViewsOf;
      ghost var start, v := data, ViewOf(s, node);
      var code := s.code[PoolOffset(s, node.instance)];
      Write64(Word(node.ip - code));
      Write64(Word((node.sp - node.spBottom) / CELL));
      Write32(|node.blocks|);
      DumpBlocks(node.blocks, code, node.spBottom);
      data := data + CellsImage(node.params);
      data := data + CellsImage(node.locals);
      data := data + CellsImage(node.stack);
      assert data == start + (LE64(v.ip) + (LE64(v.sp) + BlockPart(v)));
    }

    /** `dump_WASMInterpFrame`. */
    method DumpFrame(s: Space, node: Frame, size: uint32, address: uint32)
      requires Located(s, node) && |node.blocks| < 0x1_0000_0000
      modifies this`data
      ensures data == old(data) + RecordImage(Record(size, address, ViewOf(s, node)))
    {
      hide LE32, Body, ViewOf;
      ghost var start, v := data, ViewOf(s, node);
      Write32(FRAME_TYPE);
      Write32(size);
      Write32(address);
      ViewKind(s, node);
      if node.instance == 0 {
        Write32(NULL32);
        assert data == start + RecordImage(Record(size, address, v));
      } else {
        Write32(PoolOffset(s, node.instance));
        ghost var headed := data;
        DumpRunning(s, node);
        assert data == headed + data[|headed|..];
        assert data == start + RecordImage(Record(size, address, v));
      }
    }

    // Restoring. Where the source reads past the end of the file without noticing, the result here is `None`.

    method Next32() returns (n: Option<uint32>)
      requires Valid()
      modifies this`pos
      ensures Valid()
      ensures match Read32(old(Rest()))
              case None => n.None?
              case Some((m, rest)) => n == Some(m) && Rest() == rest
    {
      hide FromLE32;
      if pos + 4 > |data| {
        return None;
      }
      ghost var s := Rest();
      assert s[..4] == data[pos..pos + 4] && s[4..] == data[pos + 4..];
      n := Some(FromLE32(data[pos..pos + 4]));
      pos := pos + 4;
    }

    method Next64() returns (n: Option<uint64>)
      requires Valid()
      modifies this`pos
      ensures Valid()
      ensures match Read64(old(Rest()))
              case None => n.None?
              case Some((m, rest)) => n == Some(m) && Rest() == rest
    {
      hide FromLE64;
      if pos + 8 > |data| {
        return None;
      }
      ghost var s := Rest();
      assert s[..8] == data[pos..pos + 8] && s[8..] == data[pos + 8..];
      n := Some(FromLE64(data[pos..pos + 8]));
      pos := pos + 8;
    }

    /** An offset, or -1, turned into a pointer. */
    method NextPointer(origin: uint64, unit: nat) returns (p: Option<uint64>)
      requires Valid()
      modifies this`pos
      ensures Valid()
      ensures match ReadMark(old(Rest()))
              case None => p.None?
              case Some((o, rest)) => p.Some? && PointerShows(p.value, origin, unit, o) && Rest() == rest
    {
      hide Read64, Word;
      var n := Next64();
      if n.None? {
        return None;
      }
      p := Some(if n.value == NULL64 then 0 else Word(origin + unit * n.value));
    }

    method RestoreBlock(code: uint64, bottom: uint64) returns (b: Option<Block>)
      requires Valid()
      modifies this`pos
      ensures Valid()
      ensures match ReadBlock(old(Rest()))
              case None => b.None?
              case Some((v, rest)) => b.Some? && BlockShows(code, bottom, b.value, v) && Rest() == rest
    {
      hide ReadMark, Read32, PointerShows;
      b := None;
      var begin := NextPointer(code, 1);
      if begin.Some? {
        var target := NextPointer(code, 1);
        if target.Some? {
          var frameSp := NextPointer(bottom, CELL);
          if frameSp.Some? {
            var n := Next32();
            if n.Some? {
              b := Some(Block(begin.value, target.value, frameSp.value, n.value));
            }
          }
        }
      }
    }

    /** The loop over the block stack, pushing each block as it is read. */
    method RestoreBlocks(n: nat, code: uint64, bottom: uint64) returns (bs: Option<seq<Block>>)
      requires Valid()
      modifies this`pos
      ensures Valid()
      ensures match ReadBlocks(old(Rest()), n)
              case None => bs.None?
              case Some((vs, rest)) => bs.Some? && BlocksShow(code, bottom, bs.value, vs) && Rest() == rest
    {
      hide ReadBlock, BlockShows;
      var pushed: seq<Block> := [];
      ghost var seen: seq<BlockView> := [];
      ghost var start := Rest();
      NothingSeen(ReadBlocks(start, n));
      var i := 0;
      while i < n
        invariant Valid() && i <= n && BlocksShow(code, bottom, pushed, seen)
        invariant ReadBlocks(start, n) == Continued(seen, ReadBlocks(Rest(), n - i))
      {
        ghost var s := Rest();
        var b := RestoreBlock(code, bottom);
        if b.None? {
          return None;
        }
        ContinuedStep(seen, s, n - i);
        seen := seen + [ReadBlock(s).value.0];
        pushed := pushed + [b.value];
        i := i + 1;
      }
      bs := Some(pushed);
    }

    method NextCells(n: nat) returns (cells: Option<seq<uint32>>)
      requires Valid()
      modifies this`pos
      ensures Valid()
      ensures match ReadCells(old(Rest()), n)
              case None => cells.None?
              case Some((cs, rest)) => cells == Some(cs) && Rest() == rest
      decreases n
    {
      hide Read32;
      if n == 0 {
        return Some([]);
      }
      var c := Next32();
      if c.None? {
        return None;
      }
      var cs := NextCells(n - 1);
      cells := if cs.None? then None else Some([c.value] + cs.value);
    }

    /** The three cell areas of a frame. */
    method NextCellParts(f: Function) returns (cells: Option<(seq<uint32>, seq<uint32>, seq<uint32>)>)
      requires Valid()
      modifies this`pos
      ensures Valid()
      ensures match ReadCellParts(old(Rest()), f)
              case None => cells.None?
              case Some((params, locals, stack, rest)) => cells == Some((params, locals, stack)) && Rest() == rest
    {
      hide ReadCells;
      cells := None;
      var params := NextCells(f.params);
      if params.Some? {
        var locals := NextCells(f.locals);
        if locals.Some? {
          var stack := NextCells(f.maxStack);
          if stack.Some? {
            cells := Some((params.value, locals.value, stack.value));
          }
        }
      }
    }

    /** The rest of a frame whose function is known; `lp` is where its cells were allocated. */
    method RestoreRunning(fs: Functions, t: Space, fn: uint32, lp: uint64) returns (node: Option<Frame>)
      requires Valid() && fn in fs && fn in t.instances && fn in t.code
      modifies this`pos
      ensures Valid()
      ensures match ReadRunning(fs, fn, old(Rest()))
              case None => node.None?
              case Some((v, rest)) =>
                node.Some? && Shows(t, node.value, v) && Anchored(fs[fn], lp, node.value) && Rest() == rest
    {
      hide Read64, Read32, ReadBlocks, ReadCellParts, Word, BlocksShow;
      node := None;
      var f, code := fs[fn], t.code[fn];
      var ip := Next64();
      if ip.None? {
        return;
      }
      var bottom := Word(lp + CELL * (f.params + f.locals));
      var sp := Next64();
      if sp.None? {
        return;
      }
      var n := Next32();
      if n.None? {
        return;
      }
      if n.value > f.maxBlocks {
        return;
      }
      var blocks := RestoreBlocks(n.value, code, bottom);
      if blocks.None? {
        return;
      }
      var cells := NextCellParts(f);
      if cells.Some? {
        var at: int := code as int + ip.value;
        var top: int := bottom as int + CELL * sp.value;
        var boundary := Word(bottom as int + CELL * f.maxStack);
        var csp := Word(boundary as int + BLOCK * |blocks.value|);
        var stacks := Stacks(boundary, boundary, csp, Word(boundary as int + BLOCK * f.maxBlocks));
        node := Some(Frame(t.instances[fn], Word(at), bottom, Word(top), blocks.value,
                           cells.value.0, cells.value.1, cells.value.2, stacks));
      }
    }

    /** `restore_WASMInterpFrame`. */
    method RestoreFrame(fs: Functions, t: Space, lp: uint64) returns (node: Option<Frame>)
      requires Valid() && t.instances.Keys == fs.Keys && t.code.Keys == fs.Keys
      modifies this`pos
      ensures Valid()
      ensures match ReadBody(fs, old(Rest()))
              case None => node.None?
              case Some((v, rest)) =>
                && node.Some? && Shows(t, node.value, v) && Rest() == rest
                && (v.Running? ==> v.fn in fs && Anchored(fs[v.fn], lp, node.value))
    {
      hide Read32, Word, BlocksShow, Anchored;
      var p := Next32();
      if p.None? {
        return None;
      }
      if p.value == NULL32 {
        return Some(Frame(0, 0, 0, 0, [], [], [], [], Stacks(0, 0, 0, 0)));
      }
      if p.value !in fs {
        return None;
      }
      node := RestoreRunning(fs, t, p.value, lp);
    }

    /**
     `restore_frame_internal`: record after record until no further type can be read. `places` says where each frame's
     cells were allocated; a frame that is not expected stops the restore, and -1, for which the source has no frame,
     never is. Records with the same address fill the same frame, the last one last.
     */
    method RestoreFrames(fs: Functions, t: Space, places: map<uint32, uint64>)
      returns (nodes: Option<map<uint32, Frame>>)
      requires Valid() && t.instances.Keys == fs.Keys && t.code.Keys == fs.Keys
      modifies this`pos
      ensures match ReadImage(fs, old(Rest()))
              case None => nodes.None?
              case Some(rs) =>
                if Placed(rs, places) then nodes.Some? && AllShown(fs, t, places, nodes.value, rs) else nodes.None?
    {
      hide ReadRecord, Stands, LastView;
      var restored: map<uint32, Frame> := map[];
      ghost var seen: seq<Record> := [];
      ghost var start := Rest();
      NothingRead(ReadImage(fs, start));
      NothingShown(fs, t, places);
      while |data| - pos >= 4
        invariant Valid() && AllShown(fs, t, places, restored, seen) && Placed(seen, places)
        invariant ReadImage(fs, start) == AfterRecords(seen, ReadImage(fs, Rest()))
        decreases |data| - pos
      {
        ghost var s := Rest();
        var address, node := RestoreRecord(fs, t, places);
        AfterRecordsStep(fs, seen, s, places);
        if node.None? {
          return None;
        }
        ghost var r := ReadRecord(fs, s).value.0;
        ShownNext(fs, t, places, restored, seen, r, node.value);
        seen := seen + [r];
        restored := restored[address := node.value];
      }
      nodes := Some(restored);
      assert seen + [] == seen;
    }

    /** One round of the loop: the header, the frame it names, the body. */
    method RestoreRecord(fs: Functions, t: Space, places: map<uint32, uint64>)
      returns (address: uint32, node: Option<Frame>)
      requires Valid() && t.instances.Keys == fs.Keys && t.code.Keys == fs.Keys
      modifies this`pos
      ensures Valid()
      ensures match ReadRecord(fs, old(Rest()))
              case None => node.None?
              case Some((r, rest)) =>
                if Expected(places, r.address)
                then address == r.address && node.Some? && Stands(fs, t, places, address, r.view, node.value)
                     && Rest() == rest
                else node.None?
    {
      hide ReadBody, Read32, Shows, Anchored;
      address, node := 0, None;
      var kind := Next32();
      if kind.None? {
        return;
      }
      var size := Next32();
      if size.None? {
        return;
      }
      var name := Next32();
      if name.None? || !Expected(places, name.value) {
        return;
      }
      address := name.value;
      node := RestoreFrame(fs, t, places[address]);
    }
  }

  lemma ViewKind(s: Space, node: Frame)
    requires Located(s, node)
    ensures node.instance == 0 ==> ViewOf(s, node) == NoFunction && Body(NoFunction) == LE32(NULL32)
    ensures node.instance != 0 ==> ViewOf(s, node).Running? && ViewOf(s, node).fn == PoolOffset(s, node.instance)
  {
  }

  /** Blocks read before, then those still to come. */
  ghost function Continued(seen: seq<BlockView>, r: Option<(seq<BlockView>, seq<byte>)>)
    : Option<(seq<BlockView>, seq<byte>)>
  {
    match r
    case None => None
    case Some((vs, rest)) => Some((seen + vs, rest))
  }

  lemma NothingSeen(r: Option<(seq<BlockView>, seq<byte>)>)
    ensures Continued([], r) == r
  {
    if r.Some? {
      assert [] + r.value.0 == r.value.0;
    }
  }

  lemma ContinuedStep(seen: seq<BlockView>, s: seq<byte>, n: nat)
    requires n > 0 && ReadBlock(s).Some?
    ensures var (v, rest) := ReadBlock(s).value;
            Continued(seen, ReadBlocks(s, n)) == Continued(seen + [v], ReadBlocks(rest, n - 1))
  {
    hide ReadBlock;
    var (v, rest) := ReadBlock(s).value;
    match ReadBlocks(rest, n - 1)
    case None =>
    case Some((vs, _)) => assert seen + ([v] + vs) == seen + [v] + vs;
  }

  /** `get_frame_info` finds a frame for the address; -1 stands for NULL. */
  predicate Expected(places: map<uint32, uint64>, address: uint32) {
    address != NULL32 && address in places
  }

  predicate Placed(rs: seq<Record>, places: map<uint32, uint64>) {
    forall i | 0 <= i < |rs| :: Expected(places, rs[i].address)
  }

  /** The view in the last record with an address. */
  function LastView(rs: seq<Record>, address: uint32): Option<View> {
    if rs == [] then None
    else
      var n := |rs| - 1;
      if rs[n].address == address then Some(rs[n].view) else LastView(rs[..n], address)
  }

  /** The frame shows the view, and its cells and stacks are where the frame at that address was allocated. */
  predicate Stands(fs: Functions, t: Space, places: map<uint32, uint64>, a: uint32, v: View, node: Frame) {
    Shows(t, node, v) && (v.Running? ==> v.fn in fs && a in places && Anchored(fs[v.fn], places[a], node))
  }

  /** The frames are those of the records; each shows the last record with its address and stands at its own place. */
  ghost predicate AllShown(fs: Functions, t: Space, places: map<uint32, uint64>, nodes: map<uint32, Frame>,
                           rs: seq<Record>)
  {
    forall a: uint32 :: (a in nodes <==> LastView(rs, a).Some?)
      && (a in nodes ==> Stands(fs, t, places, a, LastView(rs, a).value, nodes[a]))
  }

  lemma NothingShown(fs: Functions, t: Space, places: map<uint32, uint64>)
    ensures AllShown(fs, t, places, map[], [])
  {
  }

  lemma {:induction false} ShownNext(fs: Functions, t: Space, places: map<uint32, uint64>, nodes: map<uint32, Frame>,
                                     rs: seq<Record>, r: Record, node: Frame)
    requires AllShown(fs, t, places, nodes, rs) && Stands(fs, t, places, r.address, r.view, node)
    ensures AllShown(fs, t, places, nodes[r.address := node], rs + [r])
  {
    hide Stands;
    var more := rs + [r];
    assert more[..|more| - 1] == rs;
    forall a: uint32 ensures LastView(more, a) == if a == r.address then Some(r.view) else LastView(rs, a) {
    }
  }

  lemma {:induction false} LastViewOf(rs: seq<Record>, i: nat)
    requires i < |rs| && forall j | i < j < |rs| :: rs[j].address != rs[i].address
    ensures LastView(rs, rs[i].address) == Some(rs[i].view)
  {
    var n := |rs| - 1;
    if i < n {
      LastViewOf(rs[..n], i);
    }
  }

  ghost function AfterRecords(seen: seq<Record>, r: Option<seq<Record>>): Option<seq<Record>> {
    match r
    case None => None
    case Some(rs) => Some(seen + rs)
  }

  lemma NothingRead(r: Option<seq<Record>>)
    ensures AfterRecords([], r) == r
  {
    if r.Some? {
      assert [] + r.value == r.value;
    }
  }

  lemma {:induction false} AfterRecordsStep(fs: Functions, seen: seq<Record>, s: seq<byte>, places: map<uint32, uint64>)
    requires |s| >= 4
    ensures match ReadRecord(fs, s)
            case None => ReadImage(fs, s).None?
            case Some((r, rest)) =>
              && AfterRecords(seen, ReadImage(fs, s)) == AfterRecords(seen + [r], ReadImage(fs, rest))
              && (!Expected(places, r.address) && ReadImage(fs, s).Some?
                  ==> !Placed(AfterRecords(seen, ReadImage(fs, s)).value, places))
  {
    hide ReadRecord;
    match ReadRecord(fs, s)
    case None =>
    case Some((r, rest)) =>
      match ReadImage(fs, rest)
      case None =>
      case Some(rs) =>
        var all := seen + [r] + rs;
        assert seen + ([r] + rs) == all && all[|seen|] == r;
  }

  /** A frame with the size and pool address of its record. */
  datatype Item = Item(size: uint32, address: uint32, frame: Frame)

  /**
   A frame that can be dumped and told apart: located, aligned, with its function's cell counts and no offset on a
   mark.
   */
  predicate Dumpable(fs: Functions, s: Space, f: Frame) {
    Located(s, f) && Aligned(f) && |f.blocks| < 0x1_0000_0000 && Fits(fs, ViewOf(s, f)) && Clear(ViewOf(s, f))
  }

  predicate AllDumpable(fs: Functions, s: Space, items: seq<Item>) {
    forall i | 0 <= i < |items| :: Dumpable(fs, s, items[i].frame)
  }

  function RecordOf(fs: Functions, s: Space, item: Item): (r: Record)
    requires Dumpable(fs, s, item.frame)
    ensures RecordOk(fs, r)
  {
    Record(item.size, item.address, ViewOf(s, item.frame))
  }

  function RecordsOf(fs: Functions, s: Space, items: seq<Item>): (rs: seq<Record>)
    requires AllDumpable(fs, s, items)
    ensures |rs| == |items| && AllOk(fs, rs) && forall i | 0 <= i < |rs| :: rs[i] == RecordOf(fs, s, items[i])
  {
    seq(|items|, i requires 0 <= i < |items| && AllDumpable(fs, s, items) => RecordOf(fs, s, items[i]))
  }

  method DumpFrames(fs: Functions, s: Space, items: seq<Item>) returns (out: Stream)
    requires AllDumpable(fs, s, items)
    ensures fresh(out) && out.data == Image(fs, RecordsOf(fs, s, items))
  {
    hide Dumpable, RecordImage, RecordOk;
    out := new Stream([]);
    ghost var rs := RecordsOf(fs, s, items);
    for i := 0 to |items|
      invariant out.data + Image(fs, rs[i..]) == Image(fs, rs)
    {
      assert rs[i..][1..] == rs[i + 1..] && rs[i..][0] == rs[i] == RecordOf(fs, s, items[i]);
      DumpableFrame(fs, s, items[i].frame);
      out.DumpFrame(s, items[i].frame, items[i].size, items[i].address);
    }
    assert rs[|items|..] == [] && out.data + [] == out.data;
  }

  lemma DumpableFrame(fs: Functions, s: Space, f: Frame)
    requires Dumpable(fs, s, f)
    ensures Located(s, f) && Aligned(f) && |f.blocks| < 0x1_0000_0000
  {
  }

  /**
   A moved frame is laid out at its own place: the cells at `lp`, the operand stack behind them, the block stack behind
   that; and the stack pointer is as far above the bottom as it was.
   */
  predicate Settled(fs: Functions, s: Space, f: Frame, places: map<uint32, uint64>, a: uint32, g: Frame) {
    f.instance != 0 ==>
      var fn := PoolOffset(s, f.instance);
      && fn in fs && a in places
      && var cells := fs[fn].params + fs[fn].locals;
         && g.spBottom == Word(places[a] + 4 * cells)
         && g.sp == Word(places[a] + 4 * cells + (f.sp - f.spBottom))
         && g.stacks.spBoundary == Word(places[a] + 4 * (cells + fs[fn].maxStack))
         && g.stacks.cspBottom == g.stacks.spBoundary
         && g.stacks.csp == Word(places[a] + 4 * (cells + fs[fn].maxStack) + 32 * |f.blocks|)
         && g.stacks.cspBoundary == Word(places[a] + 4 * (cells + fs[fn].maxStack) + 32 * fs[fn].maxBlocks)
  }

  lemma WordAdds(a: int, b: int)
    ensures Word(Word(a) + b) == Word(a + b)
  {
  }

  lemma MovedSettles(fs: Functions, s: Space, f: Frame, t: Space, places: map<uint32, uint64>, a: uint32, g: Frame)
    requires Located(s, f) && Moved(s, f, t, g) && Stands(fs, t, places, a, ViewOf(s, f), g)
    ensures Settled(fs, s, f, places, a, g)
  {
    hide Word, Shows;
    if f.instance != 0 {
      var fn := PoolOffset(s, f.instance);
      var h := fs[fn];
      var cells, top := h.params + h.locals, h.params + h.locals + h.maxStack;
      WordAdds(places[a] + 4 * cells, f.sp - f.spBottom);
      WordAdds(places[a] + 4 * cells, 4 * h.maxStack);
      WordAdds(places[a] + 4 * top, 32 * |f.blocks|);
      WordAdds(places[a] + 4 * top, 32 * h.maxBlocks);
      assert places[a] + 4 * cells + 4 * h.maxStack == places[a] + 4 * top;
    }
  }

  lemma StandsShows(fs: Functions, t: Space, places: map<uint32, uint64>, a: uint32, v: View, node: Frame)
    requires Stands(fs, t, places, a, v, node)
    ensures Shows(t, node, v)
  {
  }

  /** No later item has the address of item `i`. */
  predicate LastAt(items: seq<Item>, i: nat)
    requires i < |items|
  {
    forall j | i < j < |items| :: items[j].address != items[i].address
  }

  /**
   Dumped in one address space and restored in another, every frame of the stack is the same frame moved there, its
   stacks laid out behind the cells where it was allocated. Of frames with one address, which a pool does not hold, the
   last is.
   */
  method Migrate(fs: Functions, s: Space, t: Space, items: seq<Item>, places: map<uint32, uint64>)
    returns (nodes: Option<map<uint32, Frame>>)
    requires AllDumpable(fs, s, items) && t.instances.Keys == fs.Keys && t.code.Keys == fs.Keys
    ensures nodes.Some? <==> forall i | 0 <= i < |items| :: Expected(places, items[i].address)
    ensures nodes.Some? ==> forall i | 0 <= i < |items| && LastAt(items, i) ::
                              && Located(s, items[i].frame) && items[i].address in nodes.value
                              && Moved(s, items[i].frame, t, nodes.value[items[i].address])
                              && Settled(fs, s, items[i].frame, places, items[i].address,
                                         nodes.value[items[i].address])
  {
    hide Dumpable, RecordImage, RecordOk, Shows, Moved, Aligned, Located, ReadRecord, ReadImage, Image, LastView,
         Stands, Settled;
    var out := DumpFrames(fs, s, items);
    ghost var rs := RecordsOf(fs, s, items);
    ImageReadBack(fs, rs);
    var file := new Stream(out.data);
    nodes := file.RestoreFrames(fs, t, places);
    if nodes.Some? {
      forall i | 0 <= i < |items| && LastAt(items, i)
        ensures && Located(s, items[i].frame) && items[i].address in nodes.value
                && Moved(s, items[i].frame, t, nodes.value[items[i].address])
                && Settled(fs, s, items[i].frame, places, items[i].address, nodes.value[items[i].address])
      {
        DumpableFrame(fs, s, items[i].frame);
        assert forall j | 0 <= j < |items| :: rs[j] == RecordOf(fs, s, items[j]);
        LastViewOf(rs, i);
        var a := items[i].address;
        StandsShows(fs, t, places, a, ViewOf(s, items[i].frame), nodes.value[a]);
        SameViewIsMoved(s, items[i].frame, t, nodes.value[a]);
        MovedSettles(fs, s, items[i].frame, t, places, a, nodes.value[a]);
      }
    }
  }
}
