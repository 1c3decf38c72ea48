/**
 Dumping interpreter frames in one process and restoring them in another: `dump_WASMInterpFrame` in
 core/iwasm/common/wasm_dump.c, `restore_WASMInterpFrame` and `restore_frame_internal` in wasm_restore.c. Addresses are
 64-bit words; 0 is NULL. A stack cell is four bytes wide.
 */
module Migration {
  import opened Bytes
  import opened FrameImage

  const CELL := 4
  const BLOCK := 32

  /** An address space: the start of the pool, and for each function, by pool offset, its instance and its code. */
  datatype Space = Space(base: uint64, instances: map<uint32, uint64>, code: map<uint32, uint64>)

  datatype Block = Block(begin: uint64, target: uint64, frameSp: uint64, cellNum: uint32)

  /** The pointers that bound the operand stack and the block stack of a frame, and the top of the block stack. */
  datatype Stacks = Stacks(spBoundary: uint64, cspBottom: uint64, csp: uint64, cspBoundary: uint64)

  datatype Frame = Frame(instance: uint64, ip: uint64, spBottom: uint64, sp: uint64, blocks: seq<Block>,
                         params: seq<uint32>, locals: seq<uint32>, stack: seq<uint32>, stacks: Stacks)

  function Word(n: int): uint64 {
    n % 0x1_0000_0000_0000_0000
  }

  // What a frame in a space stands for

  /** A pointer and its offset from an origin, in units; NULL has none. */
  predicate PointerShows(p: uint64, origin: uint64, unit: nat, o: Option<uint64>) {
    p == if o.None? then 0 else Word(origin + unit * o.value)
  }

  predicate BlockShows(code: uint64, bottom: uint64, b: Block, v: BlockView) {
    && PointerShows(b.begin, code, 1, v.begin) && PointerShows(b.target, code, 1, v.target)
    && PointerShows(b.frameSp, bottom, CELL, v.frameSp) && b.cellNum == v.cellNum
  }

  predicate BlocksShow(code: uint64, bottom: uint64, bs: seq<Block>, vs: seq<BlockView>) {
    |bs| == |vs| && forall i | 0 <= i < |bs| :: BlockShows(code, bottom, bs[i], vs[i])
  }

  /** The frame, at its addresses in this space, is what the view shows. */
  predicate Shows(s: Space, f: Frame, v: View) {
    match v
    case NoFunction => f.instance == 0
    case Running(fn, ip, sp, blocks, params, locals, stack) =>
      && fn in s.instances && fn in s.code && f.instance == s.instances[fn]
      && f.ip == Word(s.code[fn] + ip) && f.sp == Word(f.spBottom + CELL * sp)
      && BlocksShow(s.code[fn], f.spBottom, f.blocks, blocks)
      && f.params == params && f.locals == locals && f.stack == stack
  }

  /** Cells at `lp`: parameters and locals, then the operand stack, then the block stack with its blocks pushed. */
  predicate Anchored(f: Function, lp: uint64, g: Frame) {
    var boundary := Word(g.spBottom + CELL * f.maxStack);
    && g.spBottom == Word(lp + CELL * (f.params + f.locals))
    && g.stacks == Stacks(boundary, boundary, Word(boundary + BLOCK * |g.blocks|), Word(boundary + BLOCK * f.maxBlocks))
  }

  // Dumping

  function PoolOffset(s: Space, p: uint64): uint32 {
    (p - s.base) % 0x1_0000_0000
  }

  function CodeOffset(p: uint64, code: uint64): Option<uint64> {
    if p == 0 then None else Some(Word(p - code))
  }

  function CellOffset(p: uint64, bottom: uint64): Option<uint64> {
    if p == 0 then None else Some(Word((p - bottom) / CELL))
  }

  function BlockViewOf(code: uint64, bottom: uint64, b: Block): BlockView {
    BlockView(CodeOffset(b.begin, code), CodeOffset(b.target, code), CellOffset(b.frameSp, bottom), b.cellNum)
  }

  function BlockViewsOf(code: uint64, bottom: uint64, bs: seq<Block>): (vs: seq<BlockView>)
    ensures |vs| == |bs| && forall i | 0 <= i < |bs| :: vs[i] == BlockViewOf(code, bottom, bs[i])
  {
    seq(|bs|, i requires 0 <= i < |bs| => BlockViewOf(code, bottom, bs[i]))
  }

  /** The function a frame runs is in the pool under its offset. */
  predicate Located(s: Space, f: Frame) {
    f.instance != 0 ==>
      var fn := PoolOffset(s, f.instance);
      fn in s.code && fn in s.instances && s.instances[fn] == f.instance
  }

  function ViewOf(s: Space, f: Frame): (v: View)
    requires Located(s, f)
    ensures v.Running? ==> |v.blocks| == |f.blocks|
  {
    if f.instance == 0 then NoFunction
    else
      var fn := PoolOffset(s, f.instance);
      var code := s.code[fn];
      Running(fn, Word(f.ip - code), Word((f.sp - f.spBottom) / CELL), BlockViewsOf(code, f.spBottom, f.blocks),
              f.params, f.locals, f.stack)
  }

  predicate BlockAligned(b: Block, bottom: uint64) {
    b.frameSp != 0 ==> (b.frameSp - bottom) % CELL == 0
  }

  /** Stack pointers are a whole number of cells from the bottom. */
  predicate Aligned(f: Frame) {
    (f.sp - f.spBottom) % CELL == 0 && forall i | 0 <= i < |f.blocks| :: BlockAligned(f.blocks[i], f.spBottom)
  }

  lemma BackToCode(p: uint64, code: uint64)
    ensures p == Word(code + Word(p - code))
  {
  }

  lemma WordTimesCell(bottom: int, n: int)
    ensures Word(bottom + CELL * Word(n)) == Word(bottom + CELL * n)
  {
    var q := n / 0x1_0000_0000_0000_0000;
    assert n == q * 0x1_0000_0000_0000_0000 + Word(n);
    WordPeriod(bottom + CELL * Word(n), CELL * q);
  }

  lemma WordPeriod(m: int, q: int)
    ensures Word(m + q * 0x1_0000_0000_0000_0000) == Word(m)
  {
  }

  lemma BackToStack(p: uint64, bottom: uint64)
    requires (p - bottom) % CELL == 0
    ensures p == Word(bottom + CELL * Word((p - bottom) / CELL))
  {
    hide Word;
    var n := (p - bottom) / CELL;
    assert bottom + CELL * n == p;
    WordTimesCell(bottom, n);
    WordOfAddress(p);
  }

  lemma WordOfAddress(p: uint64)
    ensures Word(p) == p
  {
  }

  lemma BlockShown(code: uint64, bottom: uint64, b: Block)
    requires BlockAligned(b, bottom)
    ensures BlockShows(code, bottom, b, BlockViewOf(code, bottom, b))
  {
    hide Word;
    BackToCode(b.begin, code);
    BackToCode(b.target, code);
    if b.frameSp != 0 {
      BackToStack(b.frameSp, bottom);
    }
  }

  /** The view taken when dumping is what the frame stands for. */
  lemma ViewShown(s: Space, f: Frame)
    requires Located(s, f) && Aligned(f)
    ensures Shows(s, f, ViewOf(s, f))
  {
    hide Word, BlockShows, BlockViewOf, BlockAligned;
    if f.instance != 0 {
      var code := s.code[PoolOffset(s, f.instance)];
      BackToCode(f.ip, code);
      BackToStack(f.sp, f.spBottom);
      forall i | 0 <= i < |f.blocks|
        ensures BlockShows(code, f.spBottom, f.blocks[i], BlockViewOf(code, f.spBottom, f.blocks[i])) {
        BlockShown(code, f.spBottom, f.blocks[i]);
      }
    }
  }

  /** A pointer as the image shows it: -1 for NULL, else its distance from the origin in units. */
  function Shown(p: uint64, origin: uint64, unit: nat): uint64
    requires unit > 0
  {
    if p == 0 then 0xFFFF_FFFF_FFFF_FFFF else Word((p - origin) / unit)
  }

  /** One block of a frame in the image. */
  predicate BlockDumped(s: seq<byte>, p: nat, b: Block, code: uint64, bottom: uint64) {
    && LiesAt(s, p, LE64(Shown(b.begin, code, 1))) && LiesAt(s, p + 8, LE64(Shown(b.target, code, 1)))
    && LiesAt(s, p + 16, LE64(Shown(b.frameSp, bottom, 4))) && LiesAt(s, p + 24, LE32(b.cellNum))
  }

  /** The fields of a running frame in the image, each at its place. */
  predicate FrameDumped(s: seq<byte>, f: Frame, base: uint64, code: uint64) {
    var n := |f.blocks|;
    var p := 36 + 28 * n;
    var q := p + 4 * |f.params|;
    && n < 0x1_0000_0000
    && LiesAt(s, 12, LE32((f.instance - base) % 0x1_0000_0000)) && LiesAt(s, 16, LE64(Word(f.ip - code)))
    && LiesAt(s, 24, LE64(Word((f.sp - f.spBottom) / 4))) && LiesAt(s, 32, LE32(n))
    && (forall i | 0 <= i < n :: BlockDumped(s, 36 + 28 * i, f.blocks[i], code, f.spBottom))
    && CellsLie(s, p, f.params) && CellsLie(s, q, f.locals) && CellsLie(s, q + 4 * |f.locals|, f.stack)
    && |s| == q + 4 * |f.locals| + 4 * |f.stack|
  }

  /** What a dumped frame looks like in the file, byte for byte. */
  lemma DumpedBytes(s: Space, f: Frame, size: uint32, address: uint32)
    requires Located(s, f) && |f.blocks| < 0x1_0000_0000
    ensures var image := RecordImage(Record(size, address, ViewOf(s, f)));
            && LiesAt(image, 0, LE32(80)) && LiesAt(image, 4, LE32(size)) && LiesAt(image, 8, LE32(address))
            && if f.instance == 0 then |image| == 16 && LiesAt(image, 12, LE32(0xFFFF_FFFF))
               else FrameDumped(image, f, s.base, s.code[PoolOffset(s, f.instance)])
  {
    hide LE32, LE64, LiesAt, Word, CellsLie, RecordImage;
    var v := ViewOf(s, f);
    RecordLaidOut(Record(size, address, v));
    if f.instance != 0 {
      var image, code := RecordImage(Record(size, address, v)), s.code[PoolOffset(s, f.instance)];
      forall i | 0 <= i < |f.blocks| ensures BlockDumped(image, 36 + 28 * i, f.blocks[i], code, f.spBottom) {
        assert BlockLies(image, 36 + 28 * i, v.blocks[i]) && v.blocks[i] == BlockViewOf(code, f.spBottom, f.blocks[i]);
      }
    }
  }

  // Marks

  /** The one code pointer whose offset is the mark for NULL: just before the code. */
  predicate CodeMarked(p: uint64, code: uint64) {
    p != 0 && Word(p + 1) == code
  }

  /** The stack pointers whose offset is the mark: inside the cell below the bottom. */
  predicate StackMarked(p: uint64, bottom: uint64) {
    p != 0 && bottom - CELL <= p < bottom
  }

  predicate BlockMarked(b: Block, code: uint64, bottom: uint64) {
    CodeMarked(b.begin, code) || CodeMarked(b.target, code) || StackMarked(b.frameSp, bottom)
  }

  /** Some pointer of the frame gives the mark: its instance a byte before the pool, or one in a block. */
  predicate Marked(s: Space, f: Frame)
    requires Located(s, f)
  {
    && f.instance != 0
    && (|| (f.instance + 1 - s.base) % 0x1_0000_0000 == 0
        || exists i | 0 <= i < |f.blocks| ::
             BlockMarked(f.blocks[i], s.code[PoolOffset(s, f.instance)], f.spBottom))
  }

  lemma CodeMarks(p: uint64, code: uint64)
    ensures CodeOffset(p, code) == Some(NULL64) <==> CodeMarked(p, code)
  {
  }

  lemma StackMarks(p: uint64, bottom: uint64)
    ensures CellOffset(p, bottom) == Some(NULL64) <==> StackMarked(p, bottom)
  {
    var n := (p - bottom) / CELL;
    assert -0x4000_0000_0000_0000 <= n < 0x4000_0000_0000_0000;
    assert Word(n) == NULL64 <==> n == -1;
  }

  lemma PoolMarks(s: Space, p: uint64)
    ensures PoolOffset(s, p) == NULL32 <==> (p + 1 - s.base) % 0x1_0000_0000 == 0
  {
  }

  lemma BlockMarks(b: Block, code: uint64, bottom: uint64)
    ensures ClearBlock(BlockViewOf(code, bottom, b)) <==> !BlockMarked(b, code, bottom)
  {
    hide CodeOffset, CellOffset, CodeMarked, StackMarked;
    CodeMarks(b.begin, code);
    CodeMarks(b.target, code);
    StackMarks(b.frameSp, bottom);
  }

  /** The marks in the image of a frame are unambiguous exactly when none of its pointers gives one. */
  lemma ClearExactlyWhen(s: Space, f: Frame)
    requires Located(s, f)
    ensures Clear(ViewOf(s, f)) <==> !Marked(s, f)
  {
    hide Word, BlockMarked, ClearBlock, BlockViewOf;
    if f.instance != 0 {
      var code := s.code[PoolOffset(s, f.instance)];
      PoolMarks(s, f.instance);
      forall i | 0 <= i < |f.blocks|
        ensures ClearBlock(BlockViewOf(code, f.spBottom, f.blocks[i])) <==>
                !BlockMarked(f.blocks[i], code, f.spBottom)
      {
        BlockMarks(f.blocks[i], code, f.spBottom);
      }
      assert forall i | 0 <= i < |f.blocks| ::
          ViewOf(s, f).blocks[i] == BlockViewOf(code, f.spBottom, f.blocks[i]);
    }
  }

  /** Pointers into the code and into the stack. */
  predicate BlockInside(b: Block, code: uint64, bottom: uint64) {
    && (b.begin == 0 || code <= b.begin) && (b.target == 0 || code <= b.target)
    && (b.frameSp == 0 || bottom <= b.frameSp)
  }

  /**
   A frame as the interpreter builds it: its instance a whole number of cells into the pool, its block pointers NULL or
   in the code and the stack of its function.
   */
  predicate Inside(s: Space, f: Frame)
    requires Located(s, f)
  {
    f.instance != 0 ==>
      var code := s.code[PoolOffset(s, f.instance)];
      && (f.instance - s.base) % CELL == 0 && code > 0
      && forall i | 0 <= i < |f.blocks| :: BlockInside(f.blocks[i], code, f.spBottom)
  }

  lemma BlockInsideUnmarked(b: Block, code: uint64, bottom: uint64)
    requires BlockInside(b, code, bottom) && code > 0
    ensures !BlockMarked(b, code, bottom)
  {
  }

  /** The marks never collide with an offset of such a frame. */
  lemma InsideClear(s: Space, f: Frame)
    requires Located(s, f) && Inside(s, f)
    ensures Clear(ViewOf(s, f))
  {
    hide BlockInside, BlockMarked, ViewOf;
    ClearExactlyWhen(s, f);
    if f.instance != 0 {
      var code := s.code[PoolOffset(s, f.instance)];
      forall i | 0 <= i < |f.blocks| ensures !BlockMarked(f.blocks[i], code, f.spBottom) {
        BlockInsideUnmarked(f.blocks[i], code, f.spBottom);
      }
    }
  }

  // Moving

  function MovedPointer(p: uint64, from: uint64, to: uint64): uint64 {
    if p == 0 then 0 else Word(p - from + to)
  }

  function MovedBlock(b: Block, code: uint64, code': uint64, bottom: uint64, bottom': uint64): Block {
    Block(MovedPointer(b.begin, code, code'), MovedPointer(b.target, code, code'),
          MovedPointer(b.frameSp, bottom, bottom'), b.cellNum)
  }

  /** Another pool, other code and another stack: every pointer moves with what it points into. */
  ghost predicate Moved(s: Space, f: Frame, t: Space, g: Frame)
    requires Located(s, f)
  {
    if f.instance == 0 then g.instance == 0
    else
      var fn := PoolOffset(s, f.instance);
      && fn in t.instances && fn in t.code && g.instance == t.instances[fn]
      && g.ip == Word(f.ip - s.code[fn] + t.code[fn]) && g.sp == Word(f.sp - f.spBottom + g.spBottom)
      && |g.blocks| == |f.blocks|
      && (forall i | 0 <= i < |f.blocks| ::
            g.blocks[i] == MovedBlock(f.blocks[i], s.code[fn], t.code[fn], f.spBottom, g.spBottom))
      && g.params == f.params && g.locals == f.locals && g.stack == f.stack
  }

  lemma MovedCode(p: uint64, code: uint64, code': uint64)
    ensures Word(code' + 1 * Word(p - code)) == Word(p - code + code')
  {
  }

  lemma MovedStack(p: uint64, bottom: uint64, bottom': uint64)
    requires (p - bottom) % CELL == 0
    ensures Word(bottom' + CELL * Word((p - bottom) / CELL)) == Word(p - bottom + bottom')
  {
    hide Word;
    var n := (p - bottom) / CELL;
    assert CELL * n == p - bottom;
    WordTimesCell(bottom', n);
  }

  lemma MovedBlockShows(b: Block, c: Block, code: uint64, code': uint64, bottom: uint64, bottom': uint64)
    requires BlockAligned(b, bottom)
    ensures BlockShows(code', bottom', c, BlockViewOf(code, bottom, b))
            <==> c == MovedBlock(b, code, code', bottom, bottom')
  {
    hide Word;
    MovedCode(b.begin, code, code');
    MovedCode(b.target, code, code');
    if b.frameSp != 0 {
      MovedStack(b.frameSp, bottom, bottom');
    }
  }

  /** A frame of another space shows the same view exactly when it is the same frame moved there. */
  lemma SameViewIsMoved(s: Space, f: Frame, t: Space, g: Frame)
    requires Located(s, f) && Aligned(f)
    ensures Shows(t, g, ViewOf(s, f)) <==> Moved(s, f, t, g)
  {
    hide Word, BlockShows, BlockViewOf, BlockAligned, MovedBlock;
    if f.instance != 0 {
      var fn := PoolOffset(s, f.instance);
      if fn in t.code {
        MovedCode(f.ip, s.code[fn], t.code[fn]);
        MovedStack(f.sp, f.spBottom, g.spBottom);
        forall i | 0 <= i < |f.blocks| && i < |g.blocks|
          ensures BlockShows(t.code[fn], g.spBottom, g.blocks[i], BlockViewOf(s.code[fn], f.spBottom, f.blocks[i])) <==>
                  g.blocks[i] == MovedBlock(f.blocks[i], s.code[fn], t.code[fn], f.spBottom, g.spBottom)
        {
          MovedBlockShows(f.blocks[i], g.blocks[i], s.code[fn], t.code[fn], f.spBottom, g.spBottom);
        }
      }
    }
  }

  /** The moved pointer is an address: it neither wraps round nor turns into NULL. */
  predicate Lands(p: uint64, from: uint64, to: uint64) {
    p != 0 ==> 0 < p - from + to < 0x1_0000_0000_0000_0000
  }

  predicate BlockLands(b: Block, code: uint64, code': uint64, bottom: uint64, bottom': uint64) {
    Lands(b.begin, code, code') && Lands(b.target, code, code') && Lands(b.frameSp, bottom, bottom')
  }

  lemma MovedOffsets(p: uint64, from: uint64, to: uint64)
    requires Lands(p, from, to)
    ensures CodeOffset(MovedPointer(p, from, to), to) == CodeOffset(p, from)
    ensures CellOffset(MovedPointer(p, from, to), to) == CellOffset(p, from)
  {
    if p != 0 {
      assert MovedPointer(p, from, to) == p - from + to;
    }
  }

  lemma MovedBlockView(b: Block, code: uint64, code': uint64, bottom: uint64, bottom': uint64)
    requires BlockLands(b, code, code', bottom, bottom')
    ensures BlockViewOf(code', bottom', MovedBlock(b, code, code', bottom, bottom')) == BlockViewOf(code, bottom, b)
  {
    hide CodeOffset, CellOffset, MovedPointer, Lands;
    MovedOffsets(b.begin, code, code');
    MovedOffsets(b.target, code, code');
    MovedOffsets(b.frameSp, bottom, bottom');
  }

  lemma MovedRegister(p: uint64, from: uint64, to: uint64)
    ensures Word(Word(p - from + to) - to) == Word(p - from)
  {
  }

  /**
   Position independence: moving the pool, the code and the stack, with all stack and block pointers landing on
   addresses, changes nothing in the view and so nothing in the body of the image.
   */
  lemma PositionIndependent(s: Space, f: Frame, t: Space, g: Frame)
    requires Located(s, f) && Located(t, g) && Moved(s, f, t, g)
    requires f.instance != 0 ==>
               var fn := PoolOffset(s, f.instance);
               && g.instance != 0 && PoolOffset(t, g.instance) == fn
               && 0 <= f.sp - f.spBottom + g.spBottom < 0x1_0000_0000_0000_0000
               && forall i | 0 <= i < |f.blocks| ::
                    BlockLands(f.blocks[i], s.code[fn], t.code[fn], f.spBottom, g.spBottom)
    ensures ViewOf(t, g) == ViewOf(s, f)
  {
    hide BlockViewOf, MovedBlock, BlockLands, Word;
    if f.instance != 0 {
      var fn := PoolOffset(s, f.instance);
      var code, code' := s.code[fn], t.code[fn];
      MovedRegister(f.ip, code, code');
      WordOfAddress(f.sp - f.spBottom + g.spBottom);
      forall i | 0 <= i < |f.blocks|
        ensures BlockViewOf(code', g.spBottom, g.blocks[i]) == BlockViewOf(code, f.spBottom, f.blocks[i])
      {
        MovedBlockView(f.blocks[i], code, code', f.spBottom, g.spBottom);
      }
      assert BlockViewsOf(code', g.spBottom, g.blocks) == BlockViewsOf(code, f.spBottom, f.blocks);
    }
  }
}
