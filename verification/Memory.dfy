/**
 AOT linear memory, software bounds-check build, not shared: core/iwasm/aot/aot_runtime.c.
 `memory_instantiate` makes room for the app heap in 32-bit arithmetic; `aot_enlarge_memory` grows the memory and
 keeps the derived fields in step. The address of a block is a parameter of the step that allocates it.
 */
module Memory {
  import opened Bytes

  const PAGE := 0x1_0000
  const KB := 1024
  const NO_INDEX: uint32 := 0xFFFF_FFFF
  const APP_HEAP_SIZE_MAX: uint32 := 512 * 1024 * 1024

  /** What `memory_instantiate` reads of the module. */
  datatype Module = Module(mallocIndex: uint32, freeIndex: uint32, heapBaseIndex: uint32, heapBase: uint32)

  datatype Limits = Limits(init: uint32, max: uint32)

  /**
   A valid memory type has at most 65536 initial pages (section 3.2.5 of the WebAssembly Core Specification 1.0). The
   loader takes the counts from the file as they are.
   */
  predicate InitialOk(l: Limits) {
    l.init <= 0x1_0000
  }

  /** Sizes after making room for the heap; `newBase` is the value written to the `__heap_base` global. */
  datatype Placement = Placement(pageBytes: uint32, pages: uint32, maxPages: uint32, heapOffset: uint32,
                                 heapSize: uint32,
                                 newBase: Option<nat>)

  /** `aot_instantiate` rounds the requested heap size up to a multiple of 8 and caps it. */
  function EffectiveHeapSize(requested: uint32): (r: uint32)
    ensures r <= APP_HEAP_SIZE_MAX && r % 8 == 0
  {
    var aligned := Wrap(requested + 7) / 8 * 8;
    if aligned > APP_HEAP_SIZE_MAX then APP_HEAP_SIZE_MAX else aligned
  }

  /** The heap is not used when the module exports its own malloc and free. */
  function UsedHeapSize(m: Module, heapSize: uint32): uint32 {
    if heapSize > 0 && m.mallocIndex != NO_INDEX && m.freeIndex != NO_INDEX then 0 else heapSize
  }

  /** The heap can go before `__heap_base`, which must lie inside the initial memory. */
  predicate BeforeBase(m: Module, l: Limits) {
    m.heapBaseIndex != NO_INDEX && m.heapBase < Wrap(PAGE * l.init)
  }

  /** Bytes from `base` to the end of its page; a page boundary counts as an end. */
  function ToPageEnd(base: uint32): uint32 {
    var last := base % PAGE;
    PAGE - (if last == 0 then PAGE else last)
  }

  /** Added pages, heap size and rewritten base, in 32-bit arithmetic. */
  function Growth(m: Module, l: Limits, heap: uint32): (nat, nat, Option<nat>) {
    if BeforeBase(m, l) then
      var inc := Wrap(heap - ToPageEnd(m.heapBase) + PAGE - 1) / PAGE;
      var base := Wrap(m.heapBase + heap);
      if ToPageEnd(base) < KB then (inc + 1, heap, Some(Wrap(base + KB))) else (inc, heap, Some(base))
    else
      var inc := Wrap(heap + PAGE - 1) / PAGE;
      var size := Wrap(PAGE * inc);
      (inc, if size > 0 then Wrap(size - KB) else size, None)
  }

  /** One page that can never grow. */
  predicate SinglePage(l: Limits) {
    l.init == l.max && l.init == 1
  }

  /** `memory_instantiate` up to and including the allocation check; `None` is an error return. */
  function Place(m: Module, l: Limits, requested: uint32): Option<Placement> {
    var heap := UsedHeapSize(m, EffectiveHeapSize(requested));
    var placed :=
      if SinglePage(l) then
        var pageBytes := Wrap(PAGE + heap);
        if pageBytes < heap then None else Some(Placement(pageBytes, 1, 1, PAGE, heap, None))
      else if heap > 0 then
        var (inc, size, base) := Growth(m, l, heap);
        var pages, maxPages := Wrap(l.init + inc), Wrap(l.max + inc);
        if pages > 0x1_0000 then None
        else Some(Placement(PAGE, pages, if maxPages > 0x1_0000 then 0x1_0000 else maxPages,
                            if base.Some? then m.heapBase else Wrap(PAGE * l.init), size, base))
      else Some(Placement(PAGE, l.init, l.max, Wrap(PAGE * l.init), 0, None));
    if placed.Some? && placed.value.pageBytes * placed.value.pages >= UINT32_MAX then None else placed
  }

  function Pages(bytes: nat): nat {
    (bytes + PAGE - 1) / PAGE
  }

  /** The same placement over unbounded integers, in terms of whole pages. */
  function IdealPages(m: Module, l: Limits, heap: nat): nat {
    if SinglePage(l) then 1
    else if BeforeBase(m, l) then
      var top := m.heapBase + heap;
      l.init + Pages(top) - Pages(m.heapBase) + (if Pages(top) * PAGE - top < KB then 1 else 0)
    else l.init + Pages(heap)
  }

  function IdealBase(m: Module, heap: nat): nat {
    var top := m.heapBase + heap;
    if Pages(top) * PAGE - top < KB then top + KB else top
  }

  lemma ToPageEndIs(base: uint32)
    ensures ToPageEnd(base) == Pages(base) * PAGE - base
  {
  }

  /** 32-bit page count of the heap inserted at the base. */
  lemma InsertedPages(base: uint32, heap: uint32)
    requires 0 < heap <= APP_HEAP_SIZE_MAX
    ensures Wrap(heap - ToPageEnd(base) + PAGE - 1) / PAGE == Pages(base + heap) - Pages(base)
  {
    ToPageEndIs(base);
    var x, p := heap - ToPageEnd(base) + PAGE - 1, Pages(base);
    assert 0 <= x < 0x1_0000_0000;
    assert base + heap + PAGE - 1 == p * PAGE + x;
    assert (p * PAGE + x) / PAGE == p + x / PAGE;
  }

  /** The base moved up by the heap does not wrap when the pages fit. */
  lemma BaseStaysBelow(m: Module, l: Limits, heap: uint32)
    requires InitialOk(l) && BeforeBase(m, l) && 0 < heap <= APP_HEAP_SIZE_MAX
    requires l.init + Pages(m.heapBase + heap) - Pages(m.heapBase) < 0x1_0000
    ensures m.heapBase + heap <= (l.init + Pages(m.heapBase + heap) - Pages(m.heapBase)) * PAGE
    ensures m.heapBase + heap <= 0xFFFF_0000
  {
    assert Pages(m.heapBase) <= l.init by {
      assert m.heapBase < PAGE * l.init;
      assert (m.heapBase + PAGE - 1) / PAGE <= l.init;
    }
    var top := m.heapBase + heap;
    assert top <= Pages(top) * PAGE;
  }

  /** Heap before `__heap_base`: the 32-bit values are the ideal ones when the pages fit. */
  lemma GrowthAtBase(m: Module, l: Limits, heap: uint32)
    requires InitialOk(l) && !SinglePage(l) && BeforeBase(m, l) && 0 < heap <= APP_HEAP_SIZE_MAX
    requires l.init + Growth(m, l, heap).0 < 0x1_0000
    ensures Growth(m, l, heap) == (IdealPages(m, l, heap) - l.init, heap, Some(IdealBase(m, heap)))
    ensures m.heapBase + heap <= IdealBase(m, heap) && IdealBase(m, heap) + KB <= PAGE * IdealPages(m, l, heap)
  {
    hide Pages, ToPageEnd;
    var top := m.heapBase + heap;
    InsertedPages(m.heapBase, heap);
    BaseStaysBelow(m, l, heap);
    assert Wrap(top) == top;
    ToPageEndIs(top);
    BaseInside(m, l);
  }

  lemma BaseInside(m: Module, l: Limits)
    requires InitialOk(l) && BeforeBase(m, l)
    ensures Pages(m.heapBase) <= l.init
  {
    assert m.heapBase < PAGE * l.init;
  }

  /** Heap in pages of its own. */
  lemma GrowthAppended(m: Module, l: Limits, heap: uint32)
    requires !BeforeBase(m, l) && 0 < heap <= APP_HEAP_SIZE_MAX
    ensures Growth(m, l, heap) == (Pages(heap), PAGE * Pages(heap) - KB, None) && 1 <= Pages(heap) <= 0x2000
  {
  }

  lemma GrowthSmall(m: Module, l: Limits, heap: uint32)
    requires 0 < heap <= APP_HEAP_SIZE_MAX
    ensures Growth(m, l, heap).0 <= 0x2002
  {
    if BeforeBase(m, l) {
      InsertedPages(m.heapBase, heap);
    } else {
      GrowthAppended(m, l, heap);
    }
  }

  /** `Place` in terms of the growth, outside the single-page case. */
  lemma PlacedByGrowth(m: Module, l: Limits, requested: uint32)
    requires Place(m, l, requested).Some? && !SinglePage(l) && UsedHeapSize(m, EffectiveHeapSize(requested)) > 0
    ensures var p := Place(m, l, requested).value;
            var (inc, size, base) := Growth(m, l, UsedHeapSize(m, EffectiveHeapSize(requested)));
            && p.pageBytes == PAGE && p.pages < 0x1_0000 && p.heapSize == size && p.newBase == base
            && p.heapOffset == (if base.Some? then m.heapBase else Wrap(PAGE * l.init))
            && p.pages == (if InitialOk(l) then l.init + inc else l.init + inc - 0x1_0000_0000)
            && (InitialOk(l) ==> (p.pages <= p.maxPages <==> l.init <= l.max && l.max + inc < 0x1_0000_0000))
            && (!InitialOk(l) ==> (p.pages <= p.maxPages <==> l.init <= l.max || l.max + p.pages < l.init))
  {
    hide Growth, EffectiveHeapSize;
    GrowthSmall(m, l, UsedHeapSize(m, EffectiveHeapSize(requested)));
  }

  /** One page that cannot grow: the page itself is made bigger. */
  lemma AppendedToOnlyPage(m: Module, l: Limits, requested: uint32)
    requires Place(m, l, requested).Some? && SinglePage(l)
    ensures var p, heap := Place(m, l, requested).value, UsedHeapSize(m, EffectiveHeapSize(requested));
            p == Placement(PAGE + heap, 1, 1, PAGE, heap, None)
  {
  }

  /** The heap lies inside the memory. */
  predicate HeapInside(p: Placement) {
    p.heapOffset + p.heapSize <= p.pageBytes * p.pages
  }

  /**
   What a placement promises: the heap lies inside the memory, the 32-bit page count is the ideal one, and before
   `__heap_base` the rewritten base leaves the heap below it and at least 1 KiB above it.
   */
  predicate Promised(m: Module, l: Limits, heap: nat, p: Placement) {
    && HeapInside(p) && p.pages == IdealPages(m, l, heap)
    && (p.newBase.Some? ==>
          && p.heapOffset == m.heapBase && p.newBase.value == IdealBase(m, heap)
          && p.heapOffset + p.heapSize <= p.newBase.value && p.newBase.value + KB <= p.pageBytes * p.pages)
  }

  /**
   The one way for the heap to fit although the page count has wrapped: one page is lost and one was added in vain.
   */
  predicate FitsByChance(m: Module, l: Limits, heap: nat) {
    !SinglePage(l) && BeforeBase(m, l) && l.init == 0xFFFF_FFFF && m.heapBase == 0 && Pages(heap) * PAGE - heap < KB
  }

  lemma HeapAtBase(m: Module, l: Limits, requested: uint32)
    requires Place(m, l, requested).Some? && !SinglePage(l) && BeforeBase(m, l) && !InitialOk(l)
    requires UsedHeapSize(m, EffectiveHeapSize(requested)) > 0
    ensures HeapInside(Place(m, l, requested).value) <==>
            FitsByChance(m, l, UsedHeapSize(m, EffectiveHeapSize(requested)))
  {
    hide EffectiveHeapSize, UsedHeapSize, Growth, Pages, ToPageEnd;
    var heap := UsedHeapSize(m, EffectiveHeapSize(requested));
    HeapBounded(m, requested);
    PlacedByGrowth(m, l, requested);
    hide Place;
    PagesAdded(m, l, heap);
    var top := m.heapBase + heap;
    PagesCover(top, Place(m, l, requested).value.pages);
    PagesZero(m.heapBase);
    if m.heapBase == 0 {
      ToPageEndIs(heap);
    }
  }

  /** The pages added before the base: those the heap needs, and one more for the room above the new base. */
  lemma PagesAdded(m: Module, l: Limits, heap: uint32)
    requires BeforeBase(m, l) && 0 < heap <= APP_HEAP_SIZE_MAX
    ensures var top := m.heapBase + heap;
            Growth(m, l, heap) == (Pages(top) - Pages(m.heapBase) + (if ToPageEnd(Wrap(top)) < KB then 1 else 0), heap,
                                   Some(if ToPageEnd(Wrap(top)) < KB then Wrap(Wrap(top) + KB) else Wrap(top)))
  {
    hide Pages, ToPageEnd;
    InsertedPages(m.heapBase, heap);
  }

  lemma HeapBounded(m: Module, requested: uint32)
    ensures UsedHeapSize(m, EffectiveHeapSize(requested)) <= APP_HEAP_SIZE_MAX
  {
    hide EffectiveHeapSize;
  }

  lemma PagesCover(bytes: nat, n: nat)
    ensures bytes <= PAGE * n <==> Pages(bytes) <= n
  {
  }

  lemma PagesZero(bytes: nat)
    ensures Pages(bytes) == 0 <==> bytes == 0
  {
  }

  /**
   App-heap placement, whatever page counts the file gives. A placement keeps its promise exactly when there are at
   most 65536 initial pages; past that the heap is outside the memory, but for one case. Initial pages then stay
   within maximum pages exactly when they did so before and adding the new pages to the maximum does not wrap. When the
   page count itself has wrapped, they do so exactly when the maximum wraps behind it or does not wrap at all.
   */
  lemma HeapPlacement(m: Module, l: Limits, requested: uint32)
    requires Place(m, l, requested).Some? && Place(m, l, requested).value.heapSize > 0
    ensures var p, heap := Place(m, l, requested).value, UsedHeapSize(m, EffectiveHeapSize(requested));
            && p.pageBytes * p.pages < UINT32_MAX
            && (p.newBase.Some? <==> !SinglePage(l) && BeforeBase(m, l))
            && (Promised(m, l, heap, p) <==> InitialOk(l))
            && (HeapInside(p) <==> InitialOk(l) || FitsByChance(m, l, heap))
            && (InitialOk(l) ==> (p.pages <= p.maxPages <==>
                                  l.init <= l.max && l.max + (p.pages - l.init) < 0x1_0000_0000))
            && (!InitialOk(l) ==> (p.pages <= p.maxPages <==> l.init <= l.max || l.max + p.pages < l.init))
  {
    var p, heap := Place(m, l, requested).value, UsedHeapSize(m, EffectiveHeapSize(requested));
    if SinglePage(l) {
      AppendedToOnlyPage(m, l, requested);
    } else {
      UsedOnly(m, l, requested);
      PlacedByGrowth(m, l, requested);
      hide Growth, Place, Pages;
      if BeforeBase(m, l) {
        if InitialOk(l) {
          GrowthAtBase(m, l, heap);
        } else {
          HeapAtBase(m, l, requested);
          IdealAtLeast(m, l, heap);
        }
      } else {
        GrowthAppended(m, l, heap);
      }
    }
  }

  lemma IdealAtLeast(m: Module, l: Limits, heap: nat)
    ensures !SinglePage(l) ==> IdealPages(m, l, heap) >= l.init
  {
    assert Pages(m.heapBase) <= Pages(m.heapBase + heap);
  }

  /** Page counts as they may stand in a file, for which the heap ends up outside the memory. */
  lemma WrappedPages()
    ensures var p := Place(Module(NO_INDEX, NO_INDEX, NO_INDEX, 0), Limits(0xFFFF_FFFF, 0xFFFF_FFFF), 131072);
            p.Some? && p.value.heapSize > 0 && !HeapInside(p.value)
  {
    var m, l := Module(NO_INDEX, NO_INDEX, NO_INDEX, 0), Limits(0xFFFF_FFFF, 0xFFFF_FFFF);
    assert EffectiveHeapSize(131072) == 131072;
    assert Growth(m, l, 131072) == (2, 2 * PAGE - KB, None);
    hide EffectiveHeapSize, Growth;
    assert Place(m, l, 131072) == Some(Placement(PAGE, 1, 1, 0xFFFF_0000, 2 * PAGE - KB, None));
  }

  /** A maximum that wraps: two initial pages and at most as many as there can be, with the smallest heap. */
  lemma WrappedMaximum()
    ensures var p := Place(Module(NO_INDEX, NO_INDEX, NO_INDEX, 0), Limits(2, 0xFFFF_FFFF), 8);
            p.Some? && HeapInside(p.value) && p.value.pages > p.value.maxPages
  {
    var m, l := Module(NO_INDEX, NO_INDEX, NO_INDEX, 0), Limits(2, 0xFFFF_FFFF);
    assert EffectiveHeapSize(8) == 8;
    assert Growth(m, l, 8) == (1, PAGE - KB, None);
    hide EffectiveHeapSize, Growth;
    assert Place(m, l, 8) == Some(Placement(PAGE, 3, 0, 2 * PAGE, PAGE - KB, None));
  }

  // The placement in numbers

  /** The heap size that comes of a request: none when the module has its own malloc and free. */
  predicate Asked(m: Module, requested: uint32, heap: nat) {
    if m.mallocIndex != 0xFFFF_FFFF && m.freeIndex != 0xFFFF_FFFF then heap == 0
    else if requested <= 0x2000_0000 then requested <= heap < requested + 8 && heap % 8 == 0
    else if requested <= 0xFFFF_FFF8 then heap == 0x2000_0000
    else heap == 0
  }

  lemma HeapAsked(m: Module, requested: uint32, heap: nat)
    ensures UsedHeapSize(m, EffectiveHeapSize(requested)) == heap <==> Asked(m, requested, heap)
  {
  }

  /** `slack` bytes are missing to the next page boundary. */
  predicate ToBoundary(bytes: nat, slack: nat) {
    slack < 0x1_0000 && (bytes + slack) % 0x1_0000 == 0
  }

  lemma BoundaryPages(bytes: nat, slack: nat)
    requires ToBoundary(bytes, slack)
    ensures Pages(bytes) * PAGE == bytes + slack
  {
    var n := (bytes + slack) / PAGE;
    assert bytes + slack == n * PAGE;
    assert (bytes + PAGE - 1) / PAGE == n;
  }

  lemma BoundaryWrapped(bytes: nat, slack: nat)
    requires ToBoundary(bytes, slack)
    ensures ToPageEnd(Wrap(bytes)) == slack
  {
    var w, k := Wrap(bytes), bytes / 0x1_0000_0000;
    assert bytes == w + PAGE * (PAGE * k);
    SamePlaceInPage(w, PAGE * k);
    PlaceInPage(bytes, slack);
  }

  lemma SamePlaceInPage(w: nat, n: nat)
    ensures (w + PAGE * n) % PAGE == w % PAGE
  {
  }

  lemma PlaceInPage(bytes: nat, slack: nat)
    requires ToBoundary(bytes, slack)
    ensures bytes % PAGE == if slack == 0 then 0 else PAGE - slack
  {
  }

  lemma PagesBetween(bytes: int, n: int)
    requires bytes == n * PAGE
    ensures bytes / 0x1_0000 == n
  {
  }

  /** What is added before `__heap_base`, in terms of the bytes missing to page boundaries. */
  lemma InsertedExactly(m: Module, l: Limits, heap: uint32, slack: nat, room: nat)
    requires BeforeBase(m, l) && 0 < heap <= APP_HEAP_SIZE_MAX
    requires ToBoundary(m.heapBase, slack) && ToBoundary(m.heapBase + heap, room)
    ensures Growth(m, l, heap) == ((heap + room - slack) / 0x1_0000 + (if room < 1024 then 1 else 0), heap,
                                   Some((m.heapBase + heap + (if room < 1024 then 1024 else 0)) % 0x1_0000_0000))
  {
    hide Pages, ToPageEnd, Growth, ToBoundary;
    PagesAdded(m, l, heap);
    BoundaryPages(m.heapBase, slack);
    BoundaryPages(m.heapBase + heap, room);
    BoundaryWrapped(m.heapBase + heap, room);
    PagesBetween(heap + room - slack, Pages(m.heapBase + heap) - Pages(m.heapBase));
  }

  lemma AppendedExactly(m: Module, l: Limits, heap: uint32, q: nat)
    requires !BeforeBase(m, l) && 0 < heap <= APP_HEAP_SIZE_MAX && 0x1_0000 * q - 0x1_0000 < heap <= 0x1_0000 * q
    ensures Growth(m, l, heap) == (q, 0x1_0000 * q - 1024, None)
  {
    hide Growth;
    GrowthAppended(m, l, heap);
    assert Pages(heap) == q;
  }

  /** The heap goes before `__heap_base`. */
  predicate Inserts(m: Module, l: Limits) {
    m.heapBaseIndex != 0xFFFF_FFFF && m.heapBase < 0x1_0000 * l.init % 0x1_0000_0000
  }

  /**
   The placement of every request, and when it is refused. `slack` and `room` are the bytes missing to a page boundary
   at the old `__heap_base` and behind the heap put there; `q` is the number of pages a heap of its own takes.
   */
  lemma PlacedExactly(m: Module, l: Limits, requested: uint32, heap: nat, slack: nat, room: nat, q: nat)
    requires Asked(m, requested, heap) && ToBoundary(m.heapBase, slack) && ToBoundary(m.heapBase + heap, room)
    requires heap > 0 ==> 0x1_0000 * q - 0x1_0000 < heap <= 0x1_0000 * q
    ensures var extra := if room < 1024 then 1 else 0;
            var added := if Inserts(m, l) then (heap + room - slack) / 0x1_0000 + extra else q;
            var pages, most := (l.init + added) % 0x1_0000_0000, (l.max + added) % 0x1_0000_0000;
            Place(m, l, requested) ==
            if l.init == 1 && l.max == 1 then Some(Placement(0x1_0000 + heap, 1, 1, 0x1_0000, heap, None))
            else if heap == 0 then
              if l.init >= 0x1_0000 then None else Some(Placement(0x1_0000, l.init, l.max, 0x1_0000 * l.init, 0, None))
            else if pages >= 0x1_0000 then None
            else if Inserts(m, l) then
              Some(Placement(0x1_0000, pages, if most > 0x1_0000 then 0x1_0000 else most, m.heapBase, heap,
                             Some((m.heapBase + heap + 1024 * extra) % 0x1_0000_0000)))
            else
              Some(Placement(0x1_0000, pages, if most > 0x1_0000 then 0x1_0000 else most,
                             0x1_0000 * l.init % 0x1_0000_0000, 0x1_0000 * q - 1024, None))
  {
    hide Growth, EffectiveHeapSize, UsedHeapSize, Place, ToBoundary, Asked;
    HeapAsked(m, requested, heap);
    HeapBounded(m, requested);
    if heap == 0 || SinglePage(l) {
      PlacedAsIs(m, l, requested, heap);
    } else {
      PlacedWith(m, l, requested, heap);
      if BeforeBase(m, l) {
        InsertedExactly(m, l, heap, slack, room);
      } else {
        AppendedExactly(m, l, heap, q);
      }
    }
  }

  /** One page, or no heap. */
  lemma PlacedAsIs(m: Module, l: Limits, requested: uint32, heap: uint32)
    requires UsedHeapSize(m, EffectiveHeapSize(requested)) == heap <= APP_HEAP_SIZE_MAX && (heap == 0 || SinglePage(l))
    ensures Place(m, l, requested) ==
            if SinglePage(l) then Some(Placement(PAGE + heap, 1, 1, PAGE, heap, None))
            else if l.init >= PAGE then None
            else Some(Placement(PAGE, l.init, l.max, PAGE * l.init, 0, None))
  {
    hide EffectiveHeapSize, UsedHeapSize, Growth;
  }

  /** In terms of the growth. */
  lemma PlacedWith(m: Module, l: Limits, requested: uint32, heap: uint32)
    requires UsedHeapSize(m, EffectiveHeapSize(requested)) == heap && 0 < heap <= APP_HEAP_SIZE_MAX && !SinglePage(l)
    ensures var (inc, size, base) := Growth(m, l, heap);
            var pages, most := Wrap(l.init + inc), Wrap(l.max + inc);
            Place(m, l, requested) ==
            if pages >= PAGE then None
            else Some(Placement(PAGE, pages, if most > PAGE then PAGE else most,
                                if base.Some? then m.heapBase else Wrap(PAGE * l.init), size, base))
  {
    hide EffectiveHeapSize, UsedHeapSize, Growth, Wrap;
  }

  lemma UsedOnly(m: Module, l: Limits, requested: uint32)
    requires Place(m, l, requested).Some? && Place(m, l, requested).value.heapSize > 0 && !SinglePage(l)
    ensures UsedHeapSize(m, EffectiveHeapSize(requested)) > 0
  {
    hide Growth;
  }

  // Growing

  /** The bound-check constants compiled code uses: memory size minus the width of the access. */
  datatype Bounds = Bounds(one: int, two: int, four: int, eight: int, sixteen: int)

  function BoundsFor(size: int): Bounds {
    Bounds(size - 1, size - 2, size - 4, size - 8, size - 16)
  }

  /** An AOTMemoryInstance with the bytes of its block; pointers are addresses. */
  datatype Mem = Mem(pageBytes: uint32, pages: uint32, maxPages: uint32, size: uint32, base: nat, end: nat,
                     bytes: seq<byte>,
                     heapStart: nat, heapEnd: nat, bounds: Bounds)

  function HeapOffset(m: Mem): int {
    m.heapStart - m.base
  }

  function HeapLength(m: Mem): int {
    m.heapEnd - m.heapStart
  }

  /** All derived fields of a non-empty memory agree. */
  predicate Inv(m: Mem) {
    && m.pageBytes >= PAGE && 0 < m.pages <= m.maxPages
    && m.size == m.pageBytes * m.pages < UINT32_MAX
    && m.end == m.base + m.size && |m.bytes| == m.size
    && m.base <= m.heapStart <= m.heapEnd <= m.end
    && m.bounds == BoundsFor(m.size)
  }

  /** The instance that `memory_instantiate` fills in for a placement, its block at address `base`. */
  function Instantiated(p: Placement, base: nat): Mem
    requires p.pageBytes * p.pages < UINT32_MAX
  {
    var size := p.pageBytes * p.pages;
    Mem(p.pageBytes, p.pages, p.maxPages, size, base, base + size, Zeros(size),
        base + p.heapOffset, base + p.heapOffset + p.heapSize, BoundsFor(size))
  }

  /**
   A fresh instance, with or without a heap, has its derived fields in step exactly when it is not empty, the page
   counts were in order and the maximum did not wrap. A page count that wraps spoils it, but for the one case above.
   */
  lemma InstantiatedInv(mod: Module, l: Limits, requested: uint32, base: nat)
    requires Place(mod, l, requested).Some?
    ensures var p, heap := Place(mod, l, requested).value, UsedHeapSize(mod, EffectiveHeapSize(requested));
            && p.pageBytes * p.pages < UINT32_MAX
            && (InitialOk(l) ==> (Inv(Instantiated(p, base)) <==>
                                  0 < p.pages && l.init <= l.max && l.max + (p.pages - l.init) < 0x1_0000_0000))
            && (!InitialOk(l) ==> (Inv(Instantiated(p, base)) <==>
                                   FitsByChance(mod, l, heap) && (l.init <= l.max || l.max + p.pages < l.init)))
  {
    hide EffectiveHeapSize, Growth, Pages;
    var p := Place(mod, l, requested).value;
    if p.heapSize > 0 {
      PageAtLeast(mod, l, requested);
      HeapPlacement(mod, l, requested);
      hide Place;
      InstantiatedFields(p, base);
    } else {
      NoHeap(mod, l, requested);
      hide Place;
      InstantiatedFields(p, base);
    }
  }

  /** The invariant of a fresh instance in terms of its placement. */
  lemma InstantiatedFields(p: Placement, base: nat)
    requires p.pageBytes >= PAGE && p.pageBytes * p.pages < UINT32_MAX
    ensures Inv(Instantiated(p, base)) <==> 0 < p.pages <= p.maxPages && HeapInside(p)
  {
  }

  lemma PageAtLeast(m: Module, l: Limits, requested: uint32)
    requires Place(m, l, requested).Some?
    ensures Place(m, l, requested).value.pageBytes >= PAGE
  {
    hide Growth, EffectiveHeapSize;
    HeapBounded(m, requested);
  }

  /** A placement without a heap leaves the page counts as they are. */
  lemma NoHeap(m: Module, l: Limits, requested: uint32)
    requires Place(m, l, requested).Some? && Place(m, l, requested).value.heapSize == 0
    ensures var p := Place(m, l, requested).value;
            p.pageBytes == PAGE && p.pages == l.init < 0x1_0000 && p.maxPages == l.max && HeapInside(p)
  {
    hide Growth, EffectiveHeapSize;
    var heap := UsedHeapSize(m, EffectiveHeapSize(requested));
    HeapBounded(m, requested);
    if heap > 0 && !SinglePage(l) {
      GrowthHeap(m, l, heap);
    }
  }

  lemma GrowthHeap(m: Module, l: Limits, heap: uint32)
    requires 0 < heap <= APP_HEAP_SIZE_MAX
    ensures Growth(m, l, heap).1 > 0
  {
    if !BeforeBase(m, l) {
      GrowthAppended(m, l, heap);
    }
  }

  /** Outcome of the allocations of one grow: address of the new block, and whether the heap could be migrated. */
  datatype Env = Env(block: Option<nat>, migrates: bool)

  /** The new size is within the maximum and below 4 GiB. */
  predicate Allowed(m: Mem, inc: uint32) {
    m.pages + inc <= m.maxPages && m.pageBytes * (m.pages + inc) < UINT32_MAX
  }

  lemma PagesTimes(a: nat, x: nat, y: nat)
    requires x <= y
    ensures a * x <= a * y
  {
  }

  /** The block moves and its end follows; the rest follows only once the heap has migrated. */
  function Reallocated(m: Mem, pages: uint32, total: uint32, base: nat, migrates: bool): (Mem, bool)
    requires m.size <= total && m.base <= m.heapStart <= m.heapEnd
  {
    var moved := m.(pages := pages, size := total, base := base, end := base + total,
                    bytes := m.bytes + Zeros(total - m.size));
    if m.heapEnd > m.heapStart && !migrates then (moved, false)
    else (moved.(heapStart := base + HeapOffset(m), heapEnd := base + HeapOffset(m) + HeapLength(m),
                 bounds := BoundsFor(total)), true)
  }

  /** `aot_enlarge_memory`. */
  function Grow(m: Mem, inc: uint32, env: Env): (Mem, bool)
    requires Inv(m)
  {
    var pages := Wrap(m.pages + inc);
    var total := m.pageBytes * pages;
    if inc == 0 then (m, true)
    else if pages < m.pages || pages > m.maxPages then (m, false)
    else if total >= UINT32_MAX then (m, false)
    else if env.block == None then (m, false)
    else
      PagesTimes(m.pageBytes, m.pages, pages);
      Reallocated(m, pages, total, env.block.value, env.migrates)
  }

  predicate Migrates(m: Mem, env: Env) {
    HeapLength(m) == 0 || env.migrates
  }

  /**
   One grow: it succeeds exactly when nothing is asked, or the size is allowed, a block is found and the heap migrates.
   A success moves the memory and its heap into the new block and keeps everything in step; a refusal changes nothing
   unless it was the migration that failed, which leaves the heap and the bounds where they were.
   */
  lemma GrowKeeps(m: Mem, inc: uint32, env: Env)
    requires Inv(m)
    ensures var (m', ok) := Grow(m, inc, env);
            && (ok <==> inc == 0 || (Allowed(m, inc) && env.block.Some? && Migrates(m, env)))
            && (ok ==> Inv(m') && m'.pages == m.pages + inc && m'.maxPages == m.maxPages && m'.pageBytes == m.pageBytes
                       && HeapOffset(m') == HeapOffset(m) && HeapLength(m') == HeapLength(m)
                       && m'.bytes == m.bytes + Zeros(m'.size - m.size))
            && (inc == 0 ==> m' == m)
            && (ok && inc > 0 ==>
                  var block := env.block.value;
                  && m'.base == block && m'.end == block + m'.size
                  && m'.heapStart == block + (m.heapStart - m.base) && m'.heapEnd == block + (m.heapEnd - m.base))
            && (!ok ==> (m' == m <==> !(Allowed(m, inc) && env.block.Some?)))
            && (!ok && Allowed(m, inc) && env.block.Some? ==>
                  && m'.base == env.block.value && m'.end == env.block.value + m'.size
                  && m'.pages == m.pages + inc && m'.size == m.pageBytes * m'.pages
                  && m'.bytes == m.bytes + Zeros(m'.size - m.size)
                  && m'.heapStart == m.heapStart && m'.heapEnd == m.heapEnd && m'.bounds == m.bounds)
  {
    hide BoundsFor;
    var pages := Wrap(m.pages + inc);
    if m.pages + inc < 0x1_0000_0000 {
      PagesTimes(m.pageBytes, m.pages, pages);
    }
    assert m.bytes + Zeros(0) == m.bytes;
  }

  /** A failed migration that does not leave things as they were: one page, with a heap at its start, grows by one. */
  lemma FailedMigration(bytes: seq<byte>)
    requires |bytes| == PAGE
    ensures var m := Mem(PAGE, 1, 2, PAGE, PAGE, 2 * PAGE, bytes, PAGE, PAGE + KB, BoundsFor(PAGE));
            Inv(m) && var (m', ok) := Grow(m, 1, Env(Some(4 * PAGE), false)); !ok && m' != m && !Inv(m')
  {
  }

  /** A run of grow requests. */
  function Run(m: Mem, steps: seq<(uint32, Env)>): Mem
    requires Inv(m) && forall i | 0 <= i < |steps| :: steps[i].1.migrates
    ensures Inv(Run(m, steps))
    decreases steps
  {
    if steps == [] then m
    else
      GrowKeeps(m, steps[0].0, steps[0].1);
      Run(Grow(m, steps[0].0, steps[0].1).0, steps[1..])
  }

  /**
   Over every run the derived fields stay in step, the heap stays where it was, old bytes are kept and new ones are
   zero.
   */
  lemma {:induction false} RunKeeps(m: Mem, steps: seq<(uint32, Env)>)
    requires Inv(m) && forall i | 0 <= i < |steps| :: steps[i].1.migrates
    ensures var m' := Run(m, steps);
            && Inv(m') && m'.pages >= m.pages && m'.maxPages == m.maxPages && m'.size >= m.size
            && HeapOffset(m') == HeapOffset(m) && HeapLength(m') == HeapLength(m)
            && m'.bytes == m.bytes + Zeros(m'.size - m.size)
    decreases steps
  {
    hide Grow;
    if steps == [] {
      assert m.bytes + Zeros(0) == m.bytes;
    } else {
      GrowKeeps(m, steps[0].0, steps[0].1);
      var next := Grow(m, steps[0].0, steps[0].1).0;
      assert next.size >= m.size && next.bytes == m.bytes + Zeros(next.size - m.size) by {
        assert m.bytes + Zeros(0) == m.bytes;
      }
      RunKeeps(next, steps[1..]);
      var m' := Run(m, steps);
      assert Zeros(next.size - m.size) + Zeros(m'.size - next.size) == Zeros(m'.size - m.size);
    }
  }

  // Addresses

  /** `aot_validate_app_addr`, in 32-bit arithmetic. */
  predicate ValidateAppAddr(m: Mem, offset: uint32, size: uint32) {
    offset <= UINT32_MAX - size && Wrap(offset + size) <= m.size
  }

  /** `aot_addr_app_to_native`; `None` is NULL. */
  function AppToNative(m: Mem, offset: uint32): Option<nat> {
    var addr := m.base + offset;
    if m.base <= addr < m.end then Some(addr) else None
  }

  /** `aot_addr_native_to_app`. */
  function NativeToApp(m: Mem, addr: nat): uint32 {
    if m.base <= addr < m.end then Wrap(addr - m.base) else 0
  }

  /** `aot_validate_native_addr` on a 64-bit host. */
  predicate ValidateNativeAddr(m: Mem, addr: uint64, size: uint32) {
    addr <= 0xFFFF_FFFF_FFFF_FFFF - size && m.base <= addr && addr + size <= m.end
  }

  /** Address checks mean what they say, and agree with each other and with the compiled code's bounds. */
  lemma AddressChecks(m: Mem, offset: uint32, size: uint32)
    requires Inv(m) && m.end < 0x1_0000_0000_0000_0000
    ensures ValidateAppAddr(m, offset, size) <==> offset + size <= |m.bytes|
    ensures m.base + offset < 0x1_0000_0000_0000_0000 ==>
              (ValidateAppAddr(m, offset, size) <==> ValidateNativeAddr(m, m.base + offset, size))
    ensures AppToNative(m, offset).Some? <==> ValidateAppAddr(m, offset, 1)
    ensures AppToNative(m, offset).Some? ==> AppToNative(m, offset) == Some(m.base + offset)
    ensures AppToNative(m, offset).Some? ==> NativeToApp(m, AppToNative(m, offset).value) == offset
    ensures offset <= m.bounds.one <==> ValidateAppAddr(m, offset, 1)
    ensures offset <= m.bounds.two <==> ValidateAppAddr(m, offset, 2)
    ensures offset <= m.bounds.four <==> ValidateAppAddr(m, offset, 4)
    ensures offset <= m.bounds.eight <==> ValidateAppAddr(m, offset, 8)
    ensures offset <= m.bounds.sixteen <==> ValidateAppAddr(m, offset, 16)
  {
    hide Inv, Wrap, ValidateAppAddr;
    InvFacts(m);
    CheckMeaning(m, offset, size);
    CheckMeaning(m, offset, 1);
    CheckMeaning(m, offset, 2);
    CheckMeaning(m, offset, 4);
    CheckMeaning(m, offset, 8);
    CheckMeaning(m, offset, 16);
    assert Wrap(offset) == offset by { SmallWrap(offset); }
  }

  lemma SmallWrap(x: uint32)
    ensures Wrap(x) == x
  {
  }

  lemma CheckMeaning(m: Mem, offset: uint32, size: uint32)
    ensures ValidateAppAddr(m, offset, size) <==> offset + size <= m.size
  {
  }

  lemma InvFacts(m: Mem)
    requires Inv(m)
    ensures PAGE <= m.size == |m.bytes| && m.end == m.base + m.size && m.bounds == BoundsFor(m.size)
  {
    PagesTimes(m.pages, 1, m.pageBytes);
    PagesTimes(m.pageBytes, 1, m.pages);
  }

  /** The memory instance, updated in place; its block is replaced when it grows. */
  class AotMemory {
    var pageBytes: uint32
    var pages: uint32
    var maxPages: uint32
    var size: uint32
    var base: nat
    var end: nat
    var data: array<byte>
    var heapStart: nat
    var heapEnd: nat
    var bounds: Bounds

    ghost function State(): Mem
      reads this, data
    {
      Mem(pageBytes, pages, maxPages, size, base, end, data[..], heapStart, heapEnd, bounds)
    }

    constructor (p: Placement, base: nat)
      requires p.pageBytes * p.pages < UINT32_MAX
      ensures State() == Instantiated(p, base) && fresh(data)
      ensures pageBytes == p.pageBytes && pages == p.pages && maxPages == p.maxPages && this.base == base
      ensures size == data.Length == p.pageBytes * p.pages && end == base + size
      ensures heapStart == base + p.heapOffset && heapEnd == base + p.heapOffset + p.heapSize
      ensures forall i | 0 <= i < data.Length :: data[i] == 0
    {
      var total := p.pageBytes * p.pages;
      pageBytes, pages, maxPages := p.pageBytes, p.pages, p.maxPages;
      size, this.base, end := total, base, base + total;
      data := new byte[total](_ => 0);
      heapStart, heapEnd := base + p.heapOffset, base + p.heapOffset + p.heapSize;
      bounds := BoundsFor(total);
      new;
      assert data[..] == Zeros(total);
    }

    /** The block after reallocation: the old bytes, then zeros. */
    static method NewBlock(bytes: seq<byte>, total: nat) returns (block: array<byte>)
      requires |bytes| <= total
      ensures fresh(block) && block[..] == bytes + Zeros(total - |bytes|)
    {
      block := new byte[total](_ => 0);
      Store(block, 0, bytes);
    }

    /** `aot_enlarge_memory`. */
    method Enlarge(inc: uint32, env: Env) returns (ok: bool)
      requires Inv(State())
      modifies this
      ensures (State(), ok) == Grow(old(State()), inc, env)
      ensures data == old(data) || fresh(data)
    {
      hide Reallocated;
      var total := Wrap(pages + inc);
      var totalSize := pageBytes * total;
      if inc == 0 {
        return true;
      }
      if total < pages || total > maxPages {
        return false;
      }
      if totalSize >= UINT32_MAX {
        return false;
      }
      if env.block == None {
        return false;
      }
      PagesTimes(pageBytes, pages, total);
      ok := Reallocate(total, totalSize, env.block.value, env.migrates);
    }

    /** The second half of `aot_enlarge_memory`, behind the checks. */
    method Reallocate(total: uint32, totalSize: uint32, newBase: nat, migrates: bool) returns (ok: bool)
      requires size == data.Length <= totalSize && base <= heapStart <= heapEnd
      modifies this
      ensures (State(), ok) == Reallocated(old(State()), total, totalSize, newBase, migrates)
      ensures data == old(data) || fresh(data)
    {
      hide BoundsFor;
      var heapSize, oldBase := heapEnd - heapStart, base;
      var block := NewBlock(data[..], totalSize);
      pages, size, base, data := total, totalSize, newBase, block;
      end := base + totalSize;
      if heapSize > 0 {
        if !migrates {
          return false;
        }
      }
      heapStart := base + (heapStart - oldBase);
      heapEnd := heapStart + heapSize;
      bounds := BoundsFor(totalSize);
      ok := true;
    }
  }
}
