/**
 Global slots: offsets assigned by core/iwasm/aot/aot_loader.c and relied on by core/iwasm/aot/aot_runtime.c.
 Build with reference types and SIMD. A value is the sixteen-byte image of a WASMValue.
 */
module Globals {
  import opened Bytes

  /** `wasm_value_type_size`. */
  function TypeSize(kind: byte): nat {
    if kind in {0x7F, 0x7D, 0x70, 0x6F} then 4 else if kind in {0x7E, 0x7C} then 8 else if kind == 0x7B then 16 else 0
  }

  /** Bytes taken by the first `n` globals of these types. */
  function Prefix(kinds: seq<byte>, n: nat): nat
    requires n <= |kinds|
  {
    if n == 0 then 0 else Prefix(kinds, n - 1) + TypeSize(kinds[n - 1])
  }

  /** What the loader records for a global. */
  datatype Slot = Slot(size: nat, offset: uint32)

  lemma WrapAdd(n: nat, m: nat)
    ensures Wrap(Wrap(n) + m) == Wrap(n + m)
  {
  }

  /** The slots of `kinds`, the first of them at `start`, in 32-bit arithmetic. */
  predicate Assigned(slots: seq<Slot>, kinds: seq<byte>, start: nat) {
    && |slots| == |kinds|
    && forall i | 0 <= i < |kinds| :: slots[i] == Slot(TypeSize(kinds[i]), Wrap(start + Prefix(kinds, i)))
  }

  lemma {:induction false} PrefixMonotone(kinds: seq<byte>, i: nat, j: nat)
    requires i <= j <= |kinds|
    ensures Prefix(kinds, i) <= Prefix(kinds, j)
    decreases j
  {
    if i < j {
      PrefixMonotone(kinds, i, j - 1);
    }
  }

  lemma {:induction false} PrefixConcat(a: seq<byte>, b: seq<byte>, n: nat)
    requires n <= |a| + |b|
    ensures Prefix(a + b, n) == if n <= |a| then Prefix(a, n) else Prefix(a, |a|) + Prefix(b, n - |a|)
    decreases n
  {
    if n > 0 {
      PrefixConcat(a, b, n - 1);
    }
  }

  /** The loop that both loaders run: a size and a running offset for each global, and the growing data size. */
  method AssignOffsets(kinds: seq<byte>, start: uint32, dataSize: uint32) returns (slots: seq<Slot>, newSize: uint32)
    ensures Assigned(slots, kinds, start) && newSize == Wrap(dataSize + Prefix(kinds, |kinds|))
  {
    hide TypeSize, Wrap, Prefix;
    slots := [];
    var offset := start;
    newSize := dataSize;
    PrefixNone(kinds);
    WrapSmall(start);
    WrapSmall(dataSize);
    for i := 0 to |kinds|
      invariant |slots| == i && offset == Wrap(start + Prefix(kinds, i)) && newSize == Wrap(dataSize + Prefix(kinds, i))
      invariant forall k | 0 <= k < i :: slots[k] == Slot(TypeSize(kinds[k]), Wrap(start + Prefix(kinds, k)))
    {
      var slot := Slot(TypeSize(kinds[i]), offset);
      slots := slots + [slot];
      PrefixNext(kinds, i);
      WrapAdd(start + Prefix(kinds, i), slot.size);
      WrapAdd(dataSize + Prefix(kinds, i), slot.size);
      offset := Wrap(offset + slot.size);
      newSize := Wrap(newSize + slot.size);
    }
  }

  lemma WrapSmall(n: uint32)
    ensures Wrap(n) == n
  {
  }

  /** Imported and defined slots tile the global data, imports first. */
  predicate LaidOut(importKinds: seq<byte>, kinds: seq<byte>, imports: seq<Slot>, slots: seq<Slot>) {
    var all := importKinds + kinds;
    && |imports| == |importKinds| && |slots| == |kinds|
    && (forall i | 0 <= i < |imports| ::
          imports[i].size == TypeSize(importKinds[i]) && imports[i].offset == Prefix(all, i))
    && (forall i | 0 <= i < |slots| ::
          slots[i].size == TypeSize(kinds[i]) && slots[i].offset == Prefix(all, |imports| + i))
  }

  function Total(importKinds: seq<byte>, kinds: seq<byte>): nat {
    Prefix(importKinds + kinds, |importKinds| + |kinds|)
  }

  // Sizes of the loader's records on a 64-bit host: two pointers, three words and a value; or three words and an
  // initialiser.
  const IMPORT_RECORD := 48
  const RECORD := 40

  /** `loader_malloc` refuses such a size; otherwise it is taken to succeed. */
  predicate TooBig(size: nat) {
    size >= UINT32_MAX
  }

  /**
   `load_import_globals` then `load_globals`, which starts where the last imported global ends. Loading fails exactly
   when one of the record arrays is too big to allocate; when it succeeds the slots tile a region of the recorded size.
   */
  method LoadGlobals(importKinds: seq<byte>, kinds: seq<byte>)
    returns (ok: bool, imports: seq<Slot>, slots: seq<Slot>, dataSize: uint32)
    ensures ok <==> 48 * |importKinds| < 0xFFFF_FFFF && 40 * |kinds| < 0xFFFF_FFFF
    ensures ok ==> LaidOut(importKinds, kinds, imports, slots) && dataSize == Total(importKinds, kinds)
  {
    hide LaidOut, TypeSize, Wrap, Prefix;
    ok, imports, slots, dataSize := false, [], [], 0;
    if TooBig(IMPORT_RECORD * |importKinds|) {
      return;
    }
    var n := |importKinds|;
    PrefixConcat(importKinds, kinds, n + |kinds|);
    PrefixNone(importKinds);
    imports, dataSize := AssignOffsets(importKinds, 0, 0);
    if TooBig(RECORD * |kinds|) {
      return;
    }
    var start := if n > 0 then Wrap(imports[n - 1].offset + imports[n - 1].size) else 0;
    LastEnd(importKinds, imports);
    slots, dataSize := AssignOffsets(kinds, start, dataSize);
    Rebased(slots, kinds, Prefix(importKinds, n));
    WrapAdd(Prefix(importKinds, n), Prefix(kinds, |kinds|));
    PrefixNone(kinds);
    TotalFits(importKinds, kinds);
    WrapSmall(Total(importKinds, kinds));
    Joined(importKinds, kinds, imports, slots);
    ok := true;
  }

  lemma {:induction false} PrefixBound(kinds: seq<byte>, n: nat)
    requires n <= |kinds|
    ensures Prefix(kinds, n) <= 16 * n
  {
    if n > 0 {
      PrefixBound(kinds, n - 1);
    }
  }

  /** As the records are bigger than the slots, the data size of globals that can be loaded fits 32 bits. */
  lemma TotalFits(importKinds: seq<byte>, kinds: seq<byte>)
    requires !TooBig(IMPORT_RECORD * |importKinds|) && !TooBig(RECORD * |kinds|)
    ensures Total(importKinds, kinds) < 0x1_0000_0000
  {
    hide Prefix;
    PrefixBound(importKinds + kinds, |importKinds| + |kinds|);
  }

  /** Where the last imported global ends. */
  lemma LastEnd(kinds: seq<byte>, slots: seq<Slot>)
    requires Assigned(slots, kinds, 0)
    ensures var n := |kinds|;
            Wrap(Prefix(kinds, n)) == if n > 0 then Wrap(slots[n - 1].offset + slots[n - 1].size) else 0
  {
    hide TypeSize, Wrap, Prefix;
    var n := |kinds|;
    PrefixNone(kinds);
    if n > 0 {
      PrefixNext(kinds, n - 1);
      WrapAdd(Prefix(kinds, n - 1), TypeSize(kinds[n - 1]));
    } else {
      WrapSmall(0);
    }
  }

  lemma Rebased(slots: seq<Slot>, kinds: seq<byte>, start: nat)
    requires Assigned(slots, kinds, Wrap(start))
    ensures Assigned(slots, kinds, start)
  {
    hide TypeSize, Wrap, Prefix;
    forall i | 0 <= i < |kinds| ensures Wrap(Wrap(start) + Prefix(kinds, i)) == Wrap(start + Prefix(kinds, i)) {
      WrapAdd(start, Prefix(kinds, i));
    }
  }

  lemma {:induction false} Joined(importKinds: seq<byte>, kinds: seq<byte>, imports: seq<Slot>, slots: seq<Slot>)
    requires Assigned(imports, importKinds, 0) && Assigned(slots, kinds, Prefix(importKinds, |importKinds|))
    requires Total(importKinds, kinds) < 0x1_0000_0000
    ensures LaidOut(importKinds, kinds, imports, slots)
  {
    hide TypeSize, Prefix, Wrap;
    var n, all := |importKinds|, importKinds + kinds;
    forall i | 0 <= i < n ensures imports[i].offset == Prefix(all, i) {
      PrefixConcat(importKinds, kinds, i);
      PrefixMonotone(all, i, |all|);
      WrapSmall(Prefix(all, i));
    }
    PrefixNone(kinds);
    forall i | 0 <= i < |kinds| ensures slots[i].offset == Prefix(all, n + i) {
      PrefixConcat(importKinds, kinds, n + i);
      PrefixConcat(importKinds, kinds, n);
      PrefixMonotone(all, n + i, |all|);
      WrapSmall(Prefix(all, n + i));
    }
  }

  lemma PrefixNext(kinds: seq<byte>, i: nat)
    requires i < |kinds|
    ensures Prefix(kinds, i + 1) == Prefix(kinds, i) + TypeSize(kinds[i])
  {
  }

  lemma PrefixNone(kinds: seq<byte>)
    ensures Prefix(kinds, 0) == 0
  {
  }

  datatype Init = GetGlobal(index: nat) | RefNull | Const(value: seq<byte>)

  datatype Import = Import(kind: byte, isMutable: bool, linked: seq<byte>)
  datatype Defined = Defined(kind: byte, init: Init)

  const NULL_REF: seq<byte> := [0xFF, 0xFF, 0xFF, 0xFF]

  /** Values are whole images. */
  predicate WholeValues(imports: seq<Import>, globals: seq<Defined>) {
    && (forall i | 0 <= i < |imports| :: |imports[i].linked| == 16)
    && (forall i | 0 <= i < |globals| :: globals[i].init.Const? ==> |globals[i].init.value| == 16)
  }

  function ImportKinds(imports: seq<Import>): (r: seq<byte>)
    ensures |r| == |imports| && forall i | 0 <= i < |r| :: r[i] == imports[i].kind
  {
    seq(|imports|, i requires 0 <= i < |imports| => imports[i].kind)
  }

  function Kinds(globals: seq<Defined>): (r: seq<byte>)
    ensures |r| == |globals| && forall i | 0 <= i < |r| :: r[i] == globals[i].kind
  {
    seq(|globals|, i requires 0 <= i < |globals| => globals[i].kind)
  }

  /** `check_global_init_expr`; the mutability it looks at is that of the first imported global. */
  predicate InitAllowed(imports: seq<Import>, init: Init) {
    init.GetGlobal? ==> init.index < |imports| && !imports[0].isMutable
  }

  /**
   The bytes a defined global starts with, when its initialiser is allowed. A null reference is four bytes; what is
   left of a wider slot keeps the zeros it was allocated with.
   */
  function InitialBytes(imports: seq<Import>, g: Defined): seq<byte>
    requires InitAllowed(imports, g.init)
  {
    match g.init
    case GetGlobal(i) => Image(imports[i].linked, g.kind)
    case RefNull => if TypeSize(g.kind) < 4 then [] else NULL_REF + Zeros(TypeSize(g.kind) - 4)
    case Const(v) => Image(v, g.kind)
  }

  /** `init_global_data`: as many bytes of the value as the type has. */
  function Image(value: seq<byte>, kind: byte): seq<byte> {
    if TypeSize(kind) <= |value| then value[..TypeSize(kind)] else value
  }

  datatype Module = Module(imports: seq<Import>, globals: seq<Defined>)

  function AllKinds(m: Module): seq<byte> {
    ImportKinds(m.imports) + Kinds(m.globals)
  }

  function Count(m: Module): nat {
    |m.imports| + |m.globals|
  }

  predicate SlotAllowed(m: Module, k: nat)
    requires k < Count(m)
  {
    k >= |m.imports| ==> InitAllowed(m.imports, m.globals[k - |m.imports|].init)
  }

  /** What slot `k` must hold: an import's linked value, or a defined global's initialiser. */
  function SlotBytes(m: Module, k: nat): seq<byte>
    requires k < Count(m) && SlotAllowed(m, k)
  {
    if k < |m.imports| then Image(m.imports[k].linked, m.imports[k].kind)
    else InitialBytes(m.imports, m.globals[k - |m.imports|])
  }

  lemma SlotBytesLength(m: Module, k: nat)
    requires WholeValues(m.imports, m.globals) && k < Count(m) && SlotAllowed(m, k)
    ensures |SlotBytes(m, k)| == TypeSize(AllKinds(m)[k])
  {
  }

  predicate StoresNull(m: Module, k: nat)
    requires k < Count(m)
  {
    k >= |m.imports| && m.globals[k - |m.imports|].init.RefNull?
  }

  /** A null reference for a slot at the very end of the data, where neither it nor any later slot has a width. */
  predicate Spills(m: Module, k: nat)
    requires k < Count(m)
  {
    StoresNull(m, k) && forall j | k <= j < Count(m) :: TypeSize(AllKinds(m)[j]) == 0
  }

  /** A null reference fits inside the data exactly when it does not spill. */
  lemma {:induction false} NullFits(m: Module, k: nat)
    requires k < Count(m) && StoresNull(m, k)
    ensures Prefix(AllKinds(m), k) + 4 <= Prefix(AllKinds(m), Count(m)) <==> !Spills(m, k)
  {
    hide Prefix, AllKinds;
    var kinds := AllKinds(m);
    assert |kinds| == Count(m) by { KindCount(m); }
    if Spills(m, k) {
      NoWidth(kinds, k, Count(m));
    } else {
      var j :| k <= j < Count(m) && TypeSize(kinds[j]) != 0;
      PrefixNext(kinds, j);
      PrefixMonotone(kinds, k, j);
      PrefixMonotone(kinds, j + 1, Count(m));
    }
  }

  lemma KindCount(m: Module)
    ensures |AllKinds(m)| == Count(m)
  {
  }

  lemma {:induction false} NoWidth(kinds: seq<byte>, i: nat, n: nat)
    requires i <= n <= |kinds| && forall j | i <= j < n :: TypeSize(kinds[j]) == 0
    ensures Prefix(kinds, n) == Prefix(kinds, i)
    decreases n
  {
    hide TypeSize;
    if i < n {
      NoWidth(kinds, i, n - 1);
    }
  }

  /** The bytes of slot `k` lie where the loader put it. */
  predicate SlotAt(d: seq<byte>, m: Module, k: nat)
    requires k < Count(m)
  {
    var p := Prefix(AllKinds(m), k);
    SlotAllowed(m, k) && p + |SlotBytes(m, k)| <= |d| && d[p..p + |SlotBytes(m, k)|] == SlotBytes(m, k)
  }

  /** `d` is the contents of the first `n` slots. */
  predicate Filled(d: seq<byte>, m: Module, n: nat)
    requires n <= Count(m)
  {
    |d| == Prefix(AllKinds(m), n) && forall k | 0 <= k < n :: SlotAt(d, m, k)
  }

  lemma SlotKept(d: seq<byte>, more: seq<byte>, m: Module, k: nat)
    requires k < Count(m) && SlotAt(d, m, k)
    ensures SlotAt(d + more, m, k)
  {
    hide SlotBytes, Prefix, SlotAllowed;
    var p, n := Prefix(AllKinds(m), k), |SlotBytes(m, k)|;
    assert (d + more)[p..p + n] == d[p..p + n];
  }

  lemma FilledNext(d: seq<byte>, m: Module, n: nat)
    requires WholeValues(m.imports, m.globals) && n < Count(m) && Filled(d, m, n) && SlotAllowed(m, n)
    ensures Filled(d + SlotBytes(m, n), m, n + 1)
  {
    hide SlotBytes, SlotAllowed, TypeSize, SlotAt;
    var e := d + SlotBytes(m, n);
    SlotBytesLength(m, n);
    NewSlot(d, m, n);
    forall k | 0 <= k < n ensures SlotAt(e, m, k) {
      SlotKept(d, SlotBytes(m, n), m, k);
    }
  }

  lemma NewSlot(d: seq<byte>, m: Module, n: nat)
    requires n < Count(m) && SlotAllowed(m, n) && |d| == Prefix(AllKinds(m), n)
    ensures SlotAt(d + SlotBytes(m, n), m, n)
  {
    hide SlotBytes, Prefix, SlotAllowed;
    var b := SlotBytes(m, n);
    assert (d + b)[|d|..|d| + |b|] == b;
  }

  /** From four bytes behind `p` on, nothing has been stored. */
  predicate Clean(d: seq<byte>, p: nat) {
    forall i | p + 4 <= i < |d| :: d[i] == 0
  }

  /** One slot: stored at the cursor, where the loader said it is. */
  method FillSlot(data: array<byte>, p: nat, m: Module, k: nat) returns (next: nat)
    requires WholeValues(m.imports, m.globals) && k < Count(m) && SlotAllowed(m, k) && !Spills(m, k)
    requires data.Length == Prefix(AllKinds(m), Count(m)) && p <= data.Length && Filled(data[..p], m, k)
    requires Clean(data[..], p)
    modifies data
    ensures next == Prefix(AllKinds(m), k + 1) <= data.Length && Filled(data[..next], m, k + 1)
    ensures Clean(data[..], next)
  {
    hide SlotBytes, SlotAllowed, WholeValues, TypeSize, SlotAt, Spills, Prefix;
    PrefixNext(AllKinds(m), k);
    PrefixMonotone(AllKinds(m), k + 1, Count(m));
    FilledNext(data[..p], m, k);
    SlotBytesLength(m, k);
    next := p + |SlotBytes(m, k)|;
    ghost var d := data[..];
    if StoresNull(m, k) {
      NullFits(m, k);
      Store(data, p, NULL_REF);
      NullStored(d, p, m, k);
    } else {
      Store(data, p, SlotBytes(m, k));
      ValueStored(d, p, SlotBytes(m, k));
    }
  }

  lemma ValueStored(d: seq<byte>, p: nat, b: seq<byte>)
    requires p + |b| <= |d| && Clean(d, p)
    ensures Splice(d, p, b)[..p + |b|] == d[..p] + b && Clean(Splice(d, p, b), p + |b|)
  {
  }

  /** What storing a null reference leaves in a slot that was clean. */
  lemma NullStored(d: seq<byte>, p: nat, m: Module, k: nat)
    requires k < Count(m) && StoresNull(m, k) && SlotAllowed(m, k) && Clean(d, p) && p + 4 <= |d|
    requires p + |SlotBytes(m, k)| <= |d|
    ensures Splice(d, p, NULL_REF)[..p + |SlotBytes(m, k)|] == d[..p] + SlotBytes(m, k)
    ensures Clean(Splice(d, p, NULL_REF), p + |SlotBytes(m, k)|)
  {
    var e, b := Splice(d, p, NULL_REF), SlotBytes(m, k);
    assert e[..p] == d[..p] && forall i | p + 4 <= i < |e| :: e[i] == d[i];
    assert b == [] || b == NULL_REF + Zeros(|b| - 4);
    if b != [] {
      assert e[..p + |b|] == d[..p] + NULL_REF + e[p + 4..p + |b|];
      assert e[p + 4..p + |b|] == Zeros(|b| - 4);
    }
  }

  /** How instantiation ends: all slots filled, an initialiser refused, or a store past the end of the data. */
  datatype Ending = Done | Refused | Spilled

  /** Slots before `k` are filled without incident. */
  predicate FineBefore(m: Module, k: nat)
    requires k <= Count(m)
  {
    forall j | 0 <= j < k :: SlotAllowed(m, j) && !Spills(m, j)
  }

  lemma DoneMeans(m: Module)
    requires FineBefore(m, Count(m))
    ensures forall i | 0 <= i < |m.globals| && m.globals[i].init.GetGlobal? ::
              m.globals[i].init.index < |m.imports| && !m.imports[0].isMutable
  {
    forall i | 0 <= i < |m.globals| && m.globals[i].init.GetGlobal?
      ensures m.globals[i].init.index < |m.imports| && !m.imports[0].isMutable
    {
      assert SlotAllowed(m, |m.imports| + i);
    }
  }

  lemma RefusedMeans(m: Module, i: nat)
    requires i < |m.globals| && !InitAllowed(m.imports, m.globals[i].init)
    ensures m.globals[i].init.GetGlobal? && (m.globals[i].init.index >= |m.imports| || m.imports[0].isMutable)
  {
  }

  /**
   `global_instantiate`, on data that was allocated with zeros. The cursor `p` runs over the data; the source asserts
   three times that it is where the loader said. Every slot is filled with its own initialiser unless one is not allowed
   or a null reference is stored past the end of the data, and the first of these to come decides.
   */
  method Instantiate(data: array<byte>, m: Module, importSlots: seq<Slot>, slots: seq<Slot>) returns (r: Ending)
    requires WholeValues(m.imports, m.globals) && LaidOut(ImportKinds(m.imports), Kinds(m.globals), importSlots, slots)
    requires data.Length == Prefix(AllKinds(m), Count(m)) < 0x1_0000_0000 && data[..] == Zeros(data.Length)
    modifies data
    ensures r == Done <==> FineBefore(m, Count(m))
    ensures r == Refused <==> exists k | 0 <= k < Count(m) :: FineBefore(m, k) && !SlotAllowed(m, k)
    ensures r == Spilled <==> exists k | 0 <= k < Count(m) :: FineBefore(m, k) && SlotAllowed(m, k) && Spills(m, k)
    ensures r == Done ==> Filled(data[..], m, Count(m))
    ensures r == Done ==> forall i | 0 <= i < |m.globals| && m.globals[i].init.GetGlobal? ::
                            m.globals[i].init.index < |m.imports| && !m.imports[0].isMutable
    ensures r == Refused ==> exists i | 0 <= i < |m.globals| :: && m.globals[i].init.GetGlobal?
                               && (m.globals[i].init.index >= |m.imports| || m.imports[0].isMutable)
  {
    hide SlotBytes, WholeValues, TypeSize, Filled, Prefix, InitAllowed;
    FilledNone(m);
    var p := 0;
    assert data[..p] == [];
    for i := 0 to |m.imports|
      invariant p == Prefix(AllKinds(m), i) <= data.Length && Filled(data[..p], m, i) && Clean(data[..], p)
    {
      assert importSlots[i].offset == p;
      p := FillSlot(data, p, m, i);
    }
    for i := 0 to |m.globals|
      invariant p == Prefix(AllKinds(m), |m.imports| + i) <= data.Length && Filled(data[..p], m, |m.imports| + i)
      invariant FineBefore(m, |m.imports| + i) && Clean(data[..], p)
    {
      assert slots[i].offset == p;
      if !InitAllowed(m.imports, m.globals[i].init) {
        assert FineBefore(m, |m.imports| + i) && !SlotAllowed(m, |m.imports| + i);
        RefusedMeans(m, i);
        return Refused;
      }
      if m.globals[i].init.RefNull? && p + 4 > data.Length {
        NullFits(m, |m.imports| + i);
        return Spilled;
      }
      if m.globals[i].init.RefNull? {
        NullFits(m, |m.imports| + i);
      }
      p := FillSlot(data, p, m, |m.imports| + i);
    }
    assert data.Length == p;
    assert data[..p] == data[..];
    DoneMeans(m);
    r := Done;
  }

  /** A null reference as the only global, of a type without a width, has no room. */
  lemma NullSpills()
    ensures Spills(Module([], [Defined(0, RefNull)]), 0)
  {
  }

  lemma FilledNone(m: Module)
    ensures Filled([], m, 0) && Prefix(AllKinds(m), 0) == 0
  {
  }

  /** The offset and size the loader recorded find every global's own initialiser in filled data. */
  lemma SlotHoldsInitialiser(d: seq<byte>, m: Module, importSlots: seq<Slot>, slots: seq<Slot>, i: nat)
    requires WholeValues(m.imports, m.globals) && LaidOut(ImportKinds(m.imports), Kinds(m.globals), importSlots, slots)
    requires Filled(d, m, Count(m)) && i < |m.globals|
    ensures InitAllowed(m.imports, m.globals[i].init) && slots[i].offset + slots[i].size <= |d|
    ensures d[slots[i].offset..slots[i].offset + slots[i].size] == InitialBytes(m.imports, m.globals[i])
  {
    hide InitAllowed, TypeSize, InitialBytes, Prefix, WholeValues;
    var k := |m.imports| + i;
    assert SlotAt(d, m, k);
    SlotBytesLength(m, k);
  }

  /** How wide a slot is: 4, 8 or 16 bytes by the type, and none for a type that is not one of values. */
  predicate Wide(kind: byte, width: nat) {
    || (width == 4 && (kind == 0x7F || kind == 0x7D || kind == 0x70 || kind == 0x6F))
    || (width == 8 && (kind == 0x7E || kind == 0x7C))
    || (width == 16 && kind == 0x7B)
    || (width == 0 && !(0x7B <= kind <= 0x7F) && kind != 0x70 && kind != 0x6F)
  }

  /** What the slot of a defined global holds. */
  predicate Holds(slot: seq<byte>, g: Defined, imports: seq<Import>) {
    match g.init
    case GetGlobal(j) => j < |imports| && |slot| <= |imports[j].linked| && slot == imports[j].linked[..|slot|]
    case Const(v) => |slot| <= |v| && slot == v[..|slot|]
    case RefNull =>
      && (forall i | 0 <= i < |slot| && i < 4 :: slot[i] == 0xFF)
      && (forall i | 4 <= i < |slot| :: slot[i] == 0)
  }

  /**
   What the finished data holds, by the slots that the loader recorded. A constant's slot has the first bytes of the
   constant; that of a global initialised from an import has the first bytes of the import's value, and so the same
   bytes as the import's own slot when the types agree.
   */
  lemma SlotValues(d: seq<byte>, m: Module, importSlots: seq<Slot>, slots: seq<Slot>, i: nat)
    requires WholeValues(m.imports, m.globals) && LaidOut(ImportKinds(m.imports), Kinds(m.globals), importSlots, slots)
    requires Filled(d, m, Count(m)) && i < |m.globals|
    ensures Wide(m.globals[i].kind, slots[i].size) && slots[i].offset + slots[i].size <= |d|
    ensures var slot := d[slots[i].offset..slots[i].offset + slots[i].size];
            && Holds(slot, m.globals[i], m.imports)
            && (m.globals[i].init.GetGlobal? && m.imports[m.globals[i].init.index].kind == m.globals[i].kind ==>
                  var s := importSlots[m.globals[i].init.index];
                  s.offset + s.size <= |d| && slot == d[s.offset..s.offset + s.size])
  {
    hide Prefix, Filled;
    SlotHoldsInitialiser(d, m, importSlots, slots, i);
    var g := m.globals[i];
    if g.init.GetGlobal? {
      ImportSlot(d, m, importSlots, slots, g.init.index);
    }
  }

  /** An import's slot has the first bytes of its value. */
  lemma ImportSlot(d: seq<byte>, m: Module, importSlots: seq<Slot>, slots: seq<Slot>, j: nat)
    requires WholeValues(m.imports, m.globals) && LaidOut(ImportKinds(m.imports), Kinds(m.globals), importSlots, slots)
    requires Filled(d, m, Count(m)) && j < |m.imports|
    ensures var s := importSlots[j];
            && Wide(m.imports[j].kind, s.size) && s.offset + s.size <= |d| && s.size <= |m.imports[j].linked|
            && d[s.offset..s.offset + s.size] == m.imports[j].linked[..s.size]
  {
    hide Prefix;
    assert SlotAt(d, m, j);
    SlotBytesLength(m, j);
  }

  /** Slots do not overlap: each ends before a later one starts, and all end inside the data. */
  lemma {:induction false} SlotsDisjoint(kinds: seq<byte>, i: nat, j: nat)
    requires i < j < |kinds|
    ensures Prefix(kinds, i) + TypeSize(kinds[i]) <= Prefix(kinds, j) <= Prefix(kinds, |kinds|)
  {
    hide TypeSize, Prefix;
    PrefixNext(kinds, i);
    PrefixMonotone(kinds, i + 1, j);
    PrefixMonotone(kinds, j, |kinds|);
  }
}
