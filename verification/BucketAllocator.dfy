/**
 The slab allocator for small blocks: eight power-of-two size classes, one 64 KiB page per slab, an
 intrusive free list and a bump cursor in each slab's header.

 Memory is a map from the address of an eight-byte word to its value.  Allocate and Free run under
 their size class's lock, so a run is any sequence of them, and of writes into live blocks, by any
 threads; thread names the caller's thread-local slabs.  A reallocation holds no lock between its
 allocation and its free: MoveAndFree is its end, from whatever heap the others leave.  The page
 table is a parameter: page is what RequestPage returns.
 */
module BucketAllocator {
  import opened Powers

  const NUM_CLASSES := 8
  const CLASS_SIZES: seq<nat> := [8, 16, 32, 64, 128, 256, 512, 1024]
  const PAGE: nat := 0x10000
  const SYSTEM_PAGE: nat := 4096
  const HEADER: nat := 64
  const NULL: nat := 0

  datatype SlabHeader = SlabHeader(freeList: nat, classIndex: nat, slotSize: nat, totalSlots: nat, bump: nat)

  // Which slots of a slab are out and which are on its free list, in list order.
  datatype Shape = Shape(live: set<nat>, free: seq<nat>)

  type Words = map<nat, nat>

  type Slabs = map<nat, SlabHeader>

  type Shapes = map<nat, Shape>

  // ── Size classes ────────────────────────────────────────────────

  // 64 less the leading zeros.
  function BitWidth(x: nat): (w: nat)
  {
    if x == 0 then 0 else BitWidth(x / 2) + 1
  }

  function ClassIndex(size: nat): (index: int) {
    if size <= 8 then 0 else BitWidth(size - 1) - 3
  }

  lemma {:induction false} BitWidthBounds(x: nat)
    ensures x < Pow(2, BitWidth(x))
    ensures x > 0 ==> Pow(2, BitWidth(x) - 1) <= x
  {
    if x > 0 {
      BitWidthBounds(x / 2);
      assert Pow(2, BitWidth(x)) == 2 * Pow(2, BitWidth(x) - 1);
      assert x > 1 ==> Pow(2, BitWidth(x) - 1) == 2 * Pow(2, BitWidth(x) - 2);
    }
  }

  lemma {:induction false} ClassSizePower(k: nat)
    requires k < NUM_CLASSES
    ensures CLASS_SIZES[k] == Pow(2, k + 3)
  {
    assert Pow(2, 3) == 8 && Pow(2, 4) == 16 && Pow(2, 5) == 32 && Pow(2, 6) == 64;
    PowAdd(2, 6, 1);
    PowAdd(2, 6, 2);
    PowAdd(2, 6, 3);
    PowAdd(2, 6, 4);
    assert Pow(2, 1) == 2 && Pow(2, 2) == 4;
  }

  /** The class chosen is the smallest that fits, for every size the allocator serves. */
  lemma ClassFits(size: nat)
    requires size <= 1024
    ensures 0 <= ClassIndex(size) < NUM_CLASSES
    ensures size <= CLASS_SIZES[ClassIndex(size)]
    ensures ClassIndex(size) > 0 ==> CLASS_SIZES[ClassIndex(size) - 1] < size
  {
    hide Pow, BitWidth;
    if size > 8 {
      var w := BitWidth(size - 1);
      BitWidthBounds(size - 1);
      ClassSizePower(0);
      ClassSizePower(7);
      if w < 4 { PowMono(2, w, 3); }
      if w > 10 { PowMono(2, 10, w - 1); }
      ClassSizePower(w - 3);
      if w > 3 { ClassSizePower(w - 4); }
    }
  }

  // ── Slots ───────────────────────────────────────────────────────

  function PageOf(a: nat): nat {
    a / PAGE * PAGE
  }

  function Slot(base: nat, size: nat, k: nat): nat {
    base + HEADER + k * size
  }

  function TotalSlots(size: nat): nat
    requires size > 0
  {
    (PAGE - HEADER) / size
  }

  predicate OnGrid(base: nat, size: nat, a: nat)
    requires size > 0
  {
    base + HEADER <= a && (a - base - HEADER) % size == 0
  }

  function SlotIndex(base: nat, size: nat, a: nat): nat
    requires size > 0 && base + HEADER <= a
  {
    (a - base - HEADER) / size
  }

  lemma SlotPlace(base: nat, size: nat, k: nat)
    requires size > 0
    ensures OnGrid(base, size, Slot(base, size, k)) && SlotIndex(base, size, Slot(base, size, k)) == k
  {
    DivModUnique(k * size, size, k, 0);
  }

  lemma PlaceSlot(base: nat, size: nat, a: nat)
    requires size > 0 && OnGrid(base, size, a)
    ensures Slot(base, size, SlotIndex(base, size, a)) == a
  {
    QuotientRemainder(a - base - HEADER, size);
  }

  // A slot lies wholly in its slab's page, so masking any of its addresses finds the header.
  lemma SlotInPage(base: nat, size: nat, k: nat, offset: nat)
    requires size > 0 && base % PAGE == 0 && k < TotalSlots(size) && offset < size
    ensures base + HEADER <= Slot(base, size, k) + offset < base + PAGE
    ensures PageOf(Slot(base, size, k) + offset) == base
  {
    QuotientRemainder(PAGE - HEADER, size);
    MulMono(k + 1, TotalSlots(size), size);
    Distribute(size, k, 1);
    Commute(size, k);
    Commute(size, k + 1);
    QuotientRemainder(base, PAGE);
    DivModUnique(Slot(base, size, k) + offset, PAGE, base / PAGE, Slot(base, size, k) + offset - base);
  }

  lemma SlotsApart(base: nat, size: nat, j: nat, k: nat)
    requires size > 0 && j < k
    ensures Slot(base, size, j) + size <= Slot(base, size, k)
  {
    MulMono(j + 1, k, size);
    Distribute(size, j, 1);
    Commute(size, j);
    Commute(size, j + 1);
  }

  // ── Memory ──────────────────────────────────────────────────────

  function Read(memory: Words, a: nat): nat {
    if a in memory then memory[a] else 0
  }

  // The words from head on are the free list: each free slot's first word leads to the next.
  ghost predicate Listed(memory: Words, base: nat, size: nat, head: nat, free: seq<nat>)
    decreases |free|
  {
    if free == [] then head == NULL
    else head == Slot(base, size, free[0]) && Listed(memory, base, size, Read(memory, head), free[1..])
  }

  lemma {:induction false} ListedFrame(memory: Words, memory': Words, base: nat, size: nat, head: nat, free: seq<nat>)
    requires Listed(memory, base, size, head, free)
    requires forall k <- free :: Read(memory', Slot(base, size, k)) == Read(memory, Slot(base, size, k))
    ensures Listed(memory', base, size, head, free)
    decreases |free|
  {
    if free != [] {
      assert free[0] in free;
      forall k <- free[1..] ensures k in free {}
      ListedFrame(memory, memory', base, size, Read(memory, head), free[1..]);
    }
  }

  ghost predicate Distinct(s: seq<nat>) {
    forall i, j :: 0 <= i < j < |s| ==> s[i] != s[j]
  }

  // The slots handed out so far are the live ones and the free ones, each once.
  ghost predicate Partition(shape: Shape, bump: nat) {
    && Distinct(shape.free)
    && (forall k :: k in shape.live ==> k < bump)
    && (forall k <- shape.free :: k < bump && k !in shape.live)
    && (forall k :: 0 <= k < bump ==> k in shape.live || k in shape.free)
  }

  predicate WellFormed(base: nat, h: SlabHeader) {
    && base % PAGE == 0 && base > 0 && h.classIndex < NUM_CLASSES && h.slotSize == CLASS_SIZES[h.classIndex]
    && h.totalSlots == TotalSlots(h.slotSize) && h.bump <= h.totalSlots
  }

  ghost predicate SlabValid(memory: Words, base: nat, h: SlabHeader, shape: Shape) {
    WellFormed(base, h) && Partition(shape, h.bump) && Listed(memory, base, h.slotSize, h.freeList, shape.free)
  }

  lemma {:induction false} PartitionCount(shape: Shape, bump: nat)
    requires Partition(shape, bump)
    ensures bump == |shape.live| + |shape.free|
    decreases bump
  {
    assert |shape.free| > 0 ==> shape.free[0] in shape.free;
    if bump == 0 {
      assert shape.live == {};
    } else {
      var k := bump - 1;
      if k in shape.live {
        PartitionCount(Shape(shape.live - {k}, shape.free), k);
      } else {
        var i :| 0 <= i < |shape.free| && shape.free[i] == k;
        DropFree(shape, bump, i);
        PartitionCount(Shape(shape.live, shape.free[..i] + shape.free[i + 1..]), k);
      }
    }
  }

  lemma DropFree(shape: Shape, bump: nat, i: nat)
    requires Partition(shape, bump) && i < |shape.free| && shape.free[i] == bump - 1
    ensures Partition(Shape(shape.live, shape.free[..i] + shape.free[i + 1..]), bump - 1)
  {
    var free := shape.free[..i] + shape.free[i + 1..];
    forall k <- free ensures k < bump - 1 && k !in shape.live {
      var j :| 0 <= j < |free| && free[j] == k;
      var j' := if j < i then j else j + 1;
      assert k == shape.free[j'] && shape.free[j'] in shape.free && shape.free[j'] != shape.free[i];
    }
    forall k | 0 <= k < bump - 1 ensures k in shape.live || k in free {
      if k !in shape.live {
        var j :| 0 <= j < |shape.free| && shape.free[j] == k;
        assert free[if j < i then j else j - 1] == k;
      }
    }
    assert Distinct(free);
  }

  // ── One slab's transitions ──────────────────────────────────────

  lemma TakeFree(memory: Words, base: nat, h: SlabHeader, shape: Shape)
    requires SlabValid(memory, base, h, shape) && h.freeList != NULL
    ensures shape.free != [] && h.freeList == Slot(base, h.slotSize, shape.free[0])
    ensures SlabValid(memory, base, h.(freeList := Read(memory, h.freeList)), Shape(shape.live + {shape.free[0]}, shape.free[1..]))
  {
    var k := shape.free[0];
    assert k in shape.free;
    forall j <- shape.free[1..] ensures j < h.bump && j !in shape.live + {k} {
      assert j in shape.free;
    }
    forall j | 0 <= j < h.bump ensures j in shape.live + {k} || j in shape.free[1..] {
      if j in shape.free && j != k {
        var i :| 0 <= i < |shape.free| && shape.free[i] == j;
        assert shape.free[1..][i - 1] == j;
      }
    }
  }

  lemma TakeFresh(memory: Words, base: nat, h: SlabHeader, shape: Shape)
    requires SlabValid(memory, base, h, shape) && h.bump < h.totalSlots
    ensures SlabValid(memory, base, h.(bump := h.bump + 1), Shape(shape.live + {h.bump}, shape.free))
  {}

  lemma GiveBack(memory: Words, base: nat, h: SlabHeader, shape: Shape, k: nat)
    requires SlabValid(memory, base, h, shape) && k in shape.live
    ensures var a := Slot(base, h.slotSize, k);
            SlabValid(memory[a := h.freeList], base, h.(freeList := a), Shape(shape.live - {k}, [k] + shape.free))
  {
    hide Slot;
    var a := Slot(base, h.slotSize, k);
    forall j <- shape.free ensures Slot(base, h.slotSize, j) != a {
      if j < k { SlotsApart(base, h.slotSize, j, k); } else { SlotsApart(base, h.slotSize, k, j); }
    }
    ListedFrame(memory, memory[a := h.freeList], base, h.slotSize, h.freeList, shape.free);
    var free := [k] + shape.free;
    assert free[1..] == shape.free && free[0] == k;
    forall j | 0 <= j < h.bump ensures j in shape.live - {k} || j in free {
      if j in shape.free { assert j in free; }
    }
    assert Distinct(free);
  }

  // Words outside a slab's free slots do not matter to it.
  lemma SlabFrame(memory: Words, memory': Words, base: nat, h: SlabHeader, shape: Shape)
    requires SlabValid(memory, base, h, shape)
    requires forall k <- shape.free :: Read(memory', Slot(base, h.slotSize, k)) == Read(memory, Slot(base, h.slotSize, k))
    ensures SlabValid(memory', base, h, shape)
  {
    ListedFrame(memory, memory', base, h.slotSize, h.freeList, shape.free);
  }

  lemma FreshSlab(memory: Words, base: nat, index: nat)
    requires base % PAGE == 0 && base > 0 && index < NUM_CLASSES
    ensures var size := CLASS_SIZES[index];
            SlabValid(memory, base, SlabHeader(NULL, index, size, TotalSlots(size), 1), Shape({0}, []))
  {}

  // ── The whole heap ──────────────────────────────────────────────

  ghost predicate HeapValid(memory: Words, slabs: Slabs, shapes: Shapes) {
    slabs.Keys == shapes.Keys && forall b <- slabs :: SlabValid(memory, b, slabs[b], shapes[b])
  }

  // a is a block handed out and not freed since.
  ghost predicate LiveIn(slabs: Slabs, shapes: Shapes, a: nat) {
    var b := PageOf(a);
    && b in slabs && b in shapes && slabs[b].slotSize > 0 && OnGrid(b, slabs[b].slotSize, a)
    && SlotIndex(b, slabs[b].slotSize, a) in shapes[b].live
  }

  lemma SlotIsLive(memory: Words, slabs: Slabs, shapes: Shapes, b: nat, k: nat)
    requires HeapValid(memory, slabs, shapes) && b in slabs && k < slabs[b].totalSlots
    ensures PageOf(Slot(b, slabs[b].slotSize, k)) == b
    ensures LiveIn(slabs, shapes, Slot(b, slabs[b].slotSize, k)) <==> k in shapes[b].live
  {
    hide PageOf, Slot, SlotIndex, OnGrid, TotalSlots;
    SlotInPage(b, slabs[b].slotSize, k, 0);
    SlotPlace(b, slabs[b].slotSize, k);
  }

  lemma LiveIsSlot(memory: Words, slabs: Slabs, shapes: Shapes, a: nat) returns (k: nat)
    requires HeapValid(memory, slabs, shapes) && LiveIn(slabs, shapes, a)
    ensures PageOf(a) in slabs && k in shapes[PageOf(a)].live && k < slabs[PageOf(a)].bump
    ensures a == Slot(PageOf(a), slabs[PageOf(a)].slotSize, k)
  {
    hide PageOf, Slot, SlotIndex, TotalSlots;
    var b := PageOf(a);
    k := SlotIndex(b, slabs[b].slotSize, a);
    PlaceSlot(b, slabs[b].slotSize, a);
  }

  // Replacing one slab, or adding one, keeps the others.
  lemma SlabReplaced(memory: Words, memory': Words, slabs: Slabs, shapes: Shapes,
                     b: nat, h: SlabHeader, shape: Shape)
    requires HeapValid(memory, slabs, shapes) && SlabValid(memory', b, h, shape)
    requires forall a: nat :: PageOf(a) != b ==> Read(memory', a) == Read(memory, a)
    ensures HeapValid(memory', slabs[b := h], shapes[b := shape])
  {
    hide SlabValid, PageOf, Read;
    forall c <- slabs | c != b ensures SlabValid(memory', c, slabs[c], shapes[c]) {
      OtherSlab(memory, memory', c, slabs[c], shapes[c], b);
    }
  }

  // The live blocks then change by the one slot that came or went.
  lemma SlotChanged(slabs: Slabs, shapes: Shapes, b: nat, h: SlabHeader, shape: Shape, k: nat, a: nat)
    requires WellFormed(b, h) && k < h.totalSlots && slabs.Keys == shapes.Keys
    requires b in slabs ==> h.slotSize == slabs[b].slotSize
    ensures shape.live == (if b in shapes then shapes[b].live else {}) + {k} ==>
      (LiveIn(slabs[b := h], shapes[b := shape], a) <==> LiveIn(slabs, shapes, a) || a == Slot(b, h.slotSize, k))
    ensures b in shapes && shape.live == shapes[b].live - {k} ==>
      (LiveIn(slabs[b := h], shapes[b := shape], a) <==> LiveIn(slabs, shapes, a) && a != Slot(b, h.slotSize, k))
  {
    hide PageOf, Slot, SlotIndex, TotalSlots;
    SlotInPage(b, h.slotSize, k, 0);
    SlotPlace(b, h.slotSize, k);
    if PageOf(a) == b && OnGrid(b, h.slotSize, a) { PlaceSlot(b, h.slotSize, a); }
  }

  lemma OtherSlab(memory: Words, memory': Words, c: nat, h: SlabHeader, shape: Shape, b: nat)
    requires SlabValid(memory, c, h, shape) && c != b
    requires forall a: nat :: PageOf(a) != b ==> Read(memory', a) == Read(memory, a)
    ensures SlabValid(memory', c, h, shape)
  {
    hide PageOf, Slot, Read;
    forall k <- shape.free ensures Read(memory', Slot(c, h.slotSize, k)) == Read(memory, Slot(c, h.slotSize, k)) {
      SlotInPage(c, h.slotSize, k, 0);
    }
    SlabFrame(memory, memory', c, h, shape);
  }

  // The heap after one block was handed out: every other block as before, at its size.
  ghost predicate HandedOut(slabs: Slabs, shapes: Shapes, slabs': Slabs, shapes': Shapes, block: nat) {
    && block != NULL && !LiveIn(slabs, shapes, block)
    && (forall a: nat :: LiveIn(slabs', shapes', a) <==> LiveIn(slabs, shapes, a) || a == block)
    && SizesKept(slabs, slabs')
  }

  // And after one was taken back.
  ghost predicate TakenBack(slabs: Slabs, shapes: Shapes, slabs': Slabs, shapes': Shapes, block: nat) {
    && (forall a: nat :: LiveIn(slabs', shapes', a) <==> LiveIn(slabs, shapes, a) && a != block)
    && SizesKept(slabs, slabs')
  }

  ghost predicate SizesKept(slabs: Slabs, slabs': Slabs) {
    forall b <- slabs :: b in slabs' && slabs'[b].slotSize == slabs[b].slotSize && slabs'[b].classIndex == slabs[b].classIndex
  }

  lemma HandOut(memory: Words, memory': Words, slabs: Slabs, shapes: Shapes, b: nat, h: SlabHeader, shape: Shape, k: nat)
    requires HeapValid(memory, slabs, shapes) && SlabValid(memory', b, h, shape) && k < h.bump
    requires forall a: nat :: PageOf(a) != b ==> Read(memory', a) == Read(memory, a)
    requires b in slabs ==> h.slotSize == slabs[b].slotSize && h.classIndex == slabs[b].classIndex && h.totalSlots == slabs[b].totalSlots
    requires b in shapes ==> k !in shapes[b].live
    requires shape.live == (if b in shapes then shapes[b].live else {}) + {k}
    ensures HeapValid(memory', slabs[b := h], shapes[b := shape])
    ensures var block := Slot(b, h.slotSize, k);
            && block != NULL && PageOf(block) == b
            && HandedOut(slabs, shapes, slabs[b := h], shapes[b := shape], block)
  {
    hide SlabValid, PageOf, Slot, LiveIn, TotalSlots, Read;
    SlabFacts(memory', b, h, shape);
    SlabReplaced(memory, memory', slabs, shapes, b, h, shape);
    forall a: nat ensures LiveIn(slabs[b := h], shapes[b := shape], a) <==> LiveIn(slabs, shapes, a) || a == Slot(b, h.slotSize, k) {
      SlotChanged(slabs, shapes, b, h, shape, k, a);
    }
    SlotInPage(b, h.slotSize, k, 0);
    if b in slabs { SlotIsLive(memory, slabs, shapes, b, k); } else { NotYetLive(slabs, shapes, Slot(b, h.slotSize, k)); }
  }

  lemma TakeBack(memory: Words, memory': Words, slabs: Slabs, shapes: Shapes,
                 b: nat, h: SlabHeader, shape: Shape, k: nat)
    requires HeapValid(memory, slabs, shapes) && SlabValid(memory', b, h, shape) && k < h.bump && b in slabs
    requires h.slotSize == slabs[b].slotSize && h.classIndex == slabs[b].classIndex
    requires shape.live == shapes[b].live - {k}
    requires forall a: nat :: PageOf(a) != b ==> Read(memory', a) == Read(memory, a)
    ensures HeapValid(memory', slabs[b := h], shapes[b := shape])
    ensures TakenBack(slabs, shapes, slabs[b := h], shapes[b := shape], Slot(b, h.slotSize, k))
  {
    hide SlabValid, PageOf, Slot, LiveIn, TotalSlots, Read;
    SlabFacts(memory', b, h, shape);
    SlabReplaced(memory, memory', slabs, shapes, b, h, shape);
    forall a: nat ensures LiveIn(slabs[b := h], shapes[b := shape], a) <==> LiveIn(slabs, shapes, a) && a != Slot(b, h.slotSize, k) {
      SlotChanged(slabs, shapes, b, h, shape, k, a);
    }
  }

  lemma SlabFacts(memory: Words, base: nat, h: SlabHeader, shape: Shape)
    requires SlabValid(memory, base, h, shape)
    ensures WellFormed(base, h) && Partition(shape, h.bump)
    ensures forall k: nat :: Slot(base, h.slotSize, k) > NULL
  {}

  lemma HeapSlab(memory: Words, slabs: Slabs, shapes: Shapes, b: nat)
    requires HeapValid(memory, slabs, shapes) && b in slabs
    ensures b in shapes && SlabValid(memory, b, slabs[b], shapes[b]) && WellFormed(b, slabs[b]) && Partition(shapes[b], slabs[b].bump)
  {}

  lemma HeapKeys(memory: Words, slabs: Slabs, shapes: Shapes)
    requires HeapValid(memory, slabs, shapes)
    ensures slabs.Keys == shapes.Keys
  {}

  lemma NotYetLive(slabs: Slabs, shapes: Shapes, a: nat)
    requires PageOf(a) !in slabs
    ensures !LiveIn(slabs, shapes, a)
  {}

  ghost predicate Apart(slabs: Slabs, a: nat, b: nat) {
    && PageOf(a) in slabs && PageOf(b) in slabs
    && (a + slabs[PageOf(a)].slotSize <= b || b + slabs[PageOf(b)].slotSize <= a)
  }

  /** Two live blocks never overlap. */
  lemma LiveApart(memory: Words, slabs: Slabs, shapes: Shapes, a: nat, b: nat)
    requires HeapValid(memory, slabs, shapes) && LiveIn(slabs, shapes, a) && LiveIn(slabs, shapes, b) && a != b
    ensures Apart(slabs, a, b)
  {
    hide TotalSlots, PageOf, Slot, SlabValid, LiveIn, Partition;
    var j := LiveIsSlot(memory, slabs, shapes, a);
    var k := LiveIsSlot(memory, slabs, shapes, b);
    var p, q := PageOf(a), PageOf(b);
    HeapSlab(memory, slabs, shapes, p);
    HeapSlab(memory, slabs, shapes, q);
    var size, size' := slabs[p].slotSize, slabs[q].slotSize;
    if p == q {
      if j < k { SlotsApart(p, size, j, k); } else if k < j { SlotsApart(p, size, k, j); }
    } else {
      SlotInPage(p, size, j, size - 1);
      SlotInPage(q, size', k, size' - 1);
      SlotInPage(p, size, j, 0);
      SlotInPage(q, size', k, 0);
      PagesApart(p, q);
    }
  }

  lemma PagesApart(p: nat, q: nat)
    requires p % PAGE == 0 && q % PAGE == 0 && p != q
    ensures p + PAGE <= q || q + PAGE <= p
  {}

  /** Masking any address of a live block finds the header of its slab, which is at least as large as asked. */
  lemma MaskFindsHeader(memory: Words, slabs: Slabs, shapes: Shapes, a: nat, offset: nat)
    requires HeapValid(memory, slabs, shapes) && LiveIn(slabs, shapes, a)
    requires offset < slabs[PageOf(a)].slotSize
    ensures PageOf(a + offset) == PageOf(a) && PageOf(a) in slabs && OnGrid(PageOf(a), slabs[PageOf(a)].slotSize, a)
    ensures PageOf(a) + HEADER <= a && a + offset < PageOf(a) + PAGE
  {
    hide TotalSlots, PageOf, Slot, SlabValid, Partition;
    var k := LiveIsSlot(memory, slabs, shapes, a);
    HeapSlab(memory, slabs, shapes, PageOf(a));
    SlotInPage(PageOf(a), slabs[PageOf(a)].slotSize, k, offset);
  }

  /** Slots handed out are live or on the free list, which never holds a slot twice. */
  lemma SlabBalance(memory: Words, slabs: Slabs, shapes: Shapes, b: nat)
    requires HeapValid(memory, slabs, shapes) && b in slabs
    ensures b in shapes && slabs[b].bump == |shapes[b].live| + |shapes[b].free| && Distinct(shapes[b].free)
    ensures Listed(memory, b, slabs[b].slotSize, slabs[b].freeList, shapes[b].free)
  {
    HeapSlab(memory, slabs, shapes, b);
    PartitionCount(shapes[b], slabs[b].bump);
  }

  /** A slab without room is full: every block of its size that the page has space for is live. */
  lemma NoRoomIsFull(memory: Words, slabs: Slabs, shapes: Shapes, b: nat, a: nat)
    requires HeapValid(memory, slabs, shapes) && b in slabs
    requires slabs[b].freeList == NULL && slabs[b].bump >= slabs[b].totalSlots
    requires slabs[b].slotSize > 0 && OnGrid(b, slabs[b].slotSize, a) && a + slabs[b].slotSize <= b + PAGE
    ensures LiveIn(slabs, shapes, a)
  {
    hide PageOf, Listed;
    HeapSlab(memory, slabs, shapes, b);
    var h, shape := slabs[b], shapes[b];
    var k := SlotIndex(b, h.slotSize, a);
    PlaceSlot(b, h.slotSize, a);
    FitsBelow(b, h.slotSize, k);
    NoneFree(memory, b, h.slotSize, shape.free);
    assert k in shape.live;
    SlotInPage(b, h.slotSize, k, 0);
  }

  // The slots that end within the page are those counted.
  lemma FitsBelow(base: nat, size: nat, k: nat)
    requires size > 0 && Slot(base, size, k) + size <= base + PAGE
    ensures k < TotalSlots(size)
  {
    QuotientRemainder(PAGE - HEADER, size);
    if k >= TotalSlots(size) {
      MulMono(TotalSlots(size) + 1, k + 1, size);
      Distribute(size, k, 1);
      Distribute(size, TotalSlots(size), 1);
      Commute(size, k);
      Commute(size, k + 1);
      Commute(size, TotalSlots(size));
      Commute(size, TotalSlots(size) + 1);
    }
  }

  lemma NoneFree(memory: Words, base: nat, size: nat, free: seq<nat>)
    requires base > 0 && Listed(memory, base, size, NULL, free)
    ensures free == []
  {}

  // A word of a live block is on no free list.
  lemma OwnWord(memory: Words, slabs: Slabs, shapes: Shapes, block: nat, offset: nat, value: nat)
    requires HeapValid(memory, slabs, shapes) && LiveIn(slabs, shapes, block) && offset < slabs[PageOf(block)].slotSize
    ensures HeapValid(memory[block + offset := value], slabs, shapes)
  {
    hide TotalSlots, PageOf, Slot, LiveIn, Listed;
    var b := PageOf(block);
    var k := LiveIsSlot(memory, slabs, shapes, block);
    var h, shape, memory' := slabs[b], shapes[b], memory[block + offset := value];
    MaskFindsHeader(memory, slabs, shapes, block, offset);
    forall j <- shape.free ensures Slot(b, h.slotSize, j) != block + offset {
      if j < k { SlotsApart(b, h.slotSize, j, k); } else { SlotsApart(b, h.slotSize, k, j); }
    }
    SlabFrame(memory, memory', b, h, shape);
    SlabReplaced(memory, memory', slabs, shapes, b, h, shape);
    assert slabs[b := h] == slabs && shapes[b := shape] == shapes;
  }

  function SizeIn(slabs: Slabs, a: nat): nat {
    if PageOf(a) in slabs then slabs[PageOf(a)].slotSize else 0
  }

  // The live blocks but these hold the words they held.
  ghost predicate OthersKept(memory: Words, memory': Words, slabs: Slabs, shapes: Shapes, blocks: set<nat>) {
    forall a: nat :: LiveIn(slabs, shapes, a) && a !in blocks ==> WordsKept(memory, memory', a, SizeIn(slabs, a))
  }

  ghost predicate WordsKept(memory: Words, memory': Words, a: nat, size: nat) {
    forall w: nat :: a <= w < a + size ==> Read(memory', w) == Read(memory, w)
  }

  // moved is live in block's place.
  ghost predicate Moved(slabs: Slabs, shapes: Shapes, slabs': Slabs, shapes': Shapes,
                        block: nat, moved: nat) {
    && !LiveIn(slabs, shapes, moved)
    && forall a: nat :: LiveIn(slabs', shapes', a) <==> (LiveIn(slabs, shapes, a) && a != block) || a == moved
  }

  ghost predicate Copied(memory: Words, memory': Words, block: nat, moved: nat, size: nat) {
    forall i: nat :: i < size / 8 ==> Read(memory', moved + 8 * i) == Read(memory, block + 8 * i)
  }

  lemma SameKept(memory: Words, slabs: Slabs, shapes: Shapes, blocks: set<nat>)
    ensures OthersKept(memory, memory, slabs, shapes, blocks)
  {}

  lemma FreedKept(memory: Words, memory': Words, slabs: Slabs, shapes: Shapes, block: nat)
    requires HeapValid(memory, slabs, shapes) && LiveIn(slabs, shapes, block)
    requires forall a: nat :: a != block ==> Read(memory', a) == Read(memory, a)
    ensures OthersKept(memory, memory', slabs, shapes, {block})
  {
    hide PageOf, HeapValid, LiveIn, Read;
    LiveSize(memory, slabs, shapes, block);
    forall a: nat | LiveIn(slabs, shapes, a) && a !in {block} ensures WordsKept(memory, memory', a, SizeIn(slabs, a)) {
      LiveApart(memory, slabs, shapes, a, block);
    }
  }

  lemma FewerKept(memory: Words, memory': Words, slabs: Slabs, shapes: Shapes, blocks: set<nat>)
    requires OthersKept(memory, memory', slabs, shapes, {})
    ensures OthersKept(memory, memory', slabs, shapes, blocks)
  {}

  lemma StillSized(slabs: Slabs, shapes: Shapes, slabs': Slabs, shapes': Shapes, block: nat, moved: nat)
    requires TakenBack(slabs, shapes, slabs', shapes', block) && PageOf(moved) in slabs
    ensures SizeIn(slabs', moved) == SizeIn(slabs, moved)
  {}

  // What a zero byte at every system page below limit leaves in the word at a.
  function Prefaulted(memory: Words, page: nat, limit: nat, a: nat): nat {
    if page <= a < page + limit && a % SYSTEM_PAGE == 0 then Read(memory, a) / 256 * 256 else Read(memory, a)
  }

  ghost predicate TouchedTo(memory: Words, touched: Words, page: nat, limit: nat) {
    forall a: nat :: Read(touched, a) == Prefaulted(memory, page, limit, a)
  }

  lemma FirstTouch(memory: Words, page: nat)
    ensures TouchedTo(memory, memory, page, 0)
  {}

  lemma NextTouch(memory: Words, touched: Words, page: nat, offset: nat)
    requires (page + offset) % SYSTEM_PAGE == 0 && TouchedTo(memory, touched, page, offset)
    ensures var p := page + offset;
            TouchedTo(memory, touched[p := Read(touched, p) / 256 * 256], page, offset + SYSTEM_PAGE)
  {
    var p := page + offset;
    var touched' := touched[p := Read(touched, p) / 256 * 256];
    assert Read(touched, p) == Prefaulted(memory, page, offset, p);
    forall a: nat ensures Read(touched', a) == Prefaulted(memory, page, offset + SYSTEM_PAGE, a) {
      assert Read(touched, a) == Prefaulted(memory, page, offset, a);
      if p < a < p + SYSTEM_PAGE { assert a % SYSTEM_PAGE != 0; }
    }
  }

  lemma PrefaultedElsewhere(memory: Words, page: nat)
    requires page % PAGE == 0
    ensures forall a: nat :: PageOf(a) != page ==> Prefaulted(memory, page, PAGE, a) == Read(memory, a)
  {}

  lemma WrittenKept(memory: Words, slabs: Slabs, shapes: Shapes, block: nat, offset: nat, value: nat)
    requires HeapValid(memory, slabs, shapes) && LiveIn(slabs, shapes, block) && offset < SizeIn(slabs, block)
    ensures OthersKept(memory, memory[block + offset := value], slabs, shapes, {block})
  {
    hide PageOf, HeapValid, LiveIn;
    LiveSize(memory, slabs, shapes, block);
    forall a: nat | LiveIn(slabs, shapes, a) && a !in {block}
      ensures WordsKept(memory, memory[block + offset := value], a, SizeIn(slabs, a))
    {
      LiveApart(memory, slabs, shapes, a, block);
    }
  }

  // What a new page held is nobody's.
  lemma FreshPageKept(memory: Words, memory': Words, slabs: Slabs, shapes: Shapes, page: nat)
    requires HeapValid(memory, slabs, shapes) && page !in slabs
    requires forall a: nat :: PageOf(a) != page ==> Read(memory', a) == Read(memory, a)
    ensures OthersKept(memory, memory', slabs, shapes, {})
  {
    hide PageOf, HeapValid, LiveIn, Read, SizeIn;
    forall a: nat | LiveIn(slabs, shapes, a) && a !in {} ensures WordsKept(memory, memory', a, SizeIn(slabs, a)) {
      LiveSize(memory, slabs, shapes, a);
      forall w: nat | a <= w < a + SizeIn(slabs, a) ensures Read(memory', w) == Read(memory, w) {
        MaskFindsHeader(memory, slabs, shapes, a, w - a);
      }
    }
  }

  lemma LiveSize(memory: Words, slabs: Slabs, shapes: Shapes, block: nat)
    requires HeapValid(memory, slabs, shapes) && LiveIn(slabs, shapes, block)
    ensures block != NULL
    ensures PageOf(block) in slabs && SizeIn(slabs, block) == slabs[PageOf(block)].slotSize >= 8 && SizeIn(slabs, block) % 8 == 0
  {
    hide PageOf, SlabValid;
    HeapSlab(memory, slabs, shapes, PageOf(block));
    assert slabs[PageOf(block)].slotSize >= 8;
    MaskFindsHeader(memory, slabs, shapes, block, 0);
  }

  lemma HandedLive(slabs: Slabs, shapes: Shapes, slabs1: Slabs, shapes1: Shapes, moved: nat)
    requires HandedOut(slabs, shapes, slabs1, shapes1, moved)
    ensures LiveIn(slabs1, shapes1, moved)
  {}

  // After the allocation both blocks are live, the old one at its old size.
  lemma Fetched(slabs: Slabs, shapes: Shapes, slabs1: Slabs, shapes1: Shapes, moved: nat, block: nat)
    requires HandedOut(slabs, shapes, slabs1, shapes1, moved) && LiveIn(slabs, shapes, block)
    ensures LiveIn(slabs1, shapes1, moved) && LiveIn(slabs1, shapes1, block) && moved != block
    ensures PageOf(block) in slabs && PageOf(block) in slabs1 && slabs1[PageOf(block)].slotSize == slabs[PageOf(block)].slotSize
  {}

  // The copy wrote into moved and the free into block.
  lemma MovedKept(memory: Words, memory1: Words, memory2: Words, slabs: Slabs, shapes: Shapes, block: nat, moved: nat, size: nat)
    requires HeapValid(memory, slabs, shapes) && LiveIn(slabs, shapes, block) && LiveIn(slabs, shapes, moved) && moved != block
    requires size == SizeIn(slabs, block) <= SizeIn(slabs, moved)
    requires forall i: nat :: i < size / 8 ==> Read(memory1, moved + 8 * i) == Read(memory, block + 8 * i)
    requires forall a: nat :: !(moved <= a < moved + size) ==> Read(memory1, a) == Read(memory, a)
    requires forall a: nat :: a != block ==> Read(memory2, a) == Read(memory1, a)
    ensures Copied(memory, memory2, block, moved, size) && OthersKept(memory, memory2, slabs, shapes, {block, moved})
  {
    hide PageOf, HeapValid, LiveIn, Read;
    LiveSize(memory, slabs, shapes, block);
    LiveApart(memory, slabs, shapes, moved, block);
    forall a: nat | LiveIn(slabs, shapes, a) && a !in {block, moved} ensures WordsKept(memory, memory2, a, SizeIn(slabs, a)) {
      LiveApart(memory, slabs, shapes, moved, a);
      LiveApart(memory, slabs, shapes, block, a);
    }
  }

  // An allocation, then a move into it and the free of the old block.
  lemma MoveDone(memory: Words, slabs: Slabs, shapes: Shapes, memory1: Words, slabs1: Slabs, shapes1: Shapes,
                 memory2: Words, slabs2: Slabs, shapes2: Shapes, block: nat, moved: nat, size: nat)
    requires HeapValid(memory, slabs, shapes) && LiveIn(slabs, shapes, block) && size == SizeIn(slabs, block)
    requires HandedOut(slabs, shapes, slabs1, shapes1, moved) && OthersKept(memory, memory1, slabs, shapes, {})
    requires TakenBack(slabs1, shapes1, slabs2, shapes2, block)
    requires Copied(memory1, memory2, block, moved, size) && OthersKept(memory1, memory2, slabs1, shapes1, {block, moved})
    ensures Moved(slabs, shapes, slabs2, shapes2, block, moved) && Copied(memory, memory2, block, moved, size)
    ensures OthersKept(memory, memory2, slabs, shapes, {block}) && LiveIn(slabs2, shapes2, moved)
  {
    hide PageOf, HeapValid, LiveIn, Read;
    forall a: nat | LiveIn(slabs, shapes, a) && a !in {block} ensures WordsKept(memory, memory2, a, SizeIn(slabs, a)) {
      LiveSize(memory, slabs, shapes, a);
      Fetched(slabs, shapes, slabs1, shapes1, moved, a);
    }
    assert WordsKept(memory, memory1, block, size);
    forall i: nat | i < size / 8 ensures Read(memory2, moved + 8 * i) == Read(memory, block + 8 * i) {
      assert block <= block + 8 * i < block + size;
    }
  }

  class BucketAllocator {
    var memory: Words
    var slabs: Slabs
    var active: map<(nat, nat), nat>
    ghost var shapes: Shapes

    ghost predicate Valid()
      reads this
    {
      HeapValid(memory, slabs, shapes) && ActiveValid(active, slabs)
    }

    ghost predicate Live(a: nat)
      reads this
    {
      LiveIn(slabs, shapes, a)
    }

    // The size of the block whose page this is.
    function SizeOf(a: nat): nat
      reads this
    {
      SizeIn(slabs, a)
    }

    constructor ()
      ensures Valid() && forall a: nat :: !Live(a)
    {
      memory, slabs, active, shapes := map[], map[], map[], map[];
    }

    // Whether the thread's own slab can serve the class.
    predicate HasRoom(thread: nat, index: nat)
      reads this
    {
      (thread, index) in active && active[(thread, index)] in slabs &&
      var h := slabs[active[(thread, index)]]; h.freeList != NULL || h.bump < h.totalSlots
    }

    function FreeHead(thread: nat, index: nat): nat
      reads this
    {
      if (thread, index) in active && active[(thread, index)] in slabs then slabs[active[(thread, index)]].freeList else NULL
    }

    // Touches every system page of a new page with a zero byte, the low one of its word.
    method Prefault(page: nat)
      requires page % PAGE == 0
      modifies this`memory
      ensures TouchedTo(old(memory), memory, page, PAGE)
    {
      hide TouchedTo, Prefaulted;
      FirstTouch(memory, page);
      var offset := 0;
      while offset < PAGE
        invariant offset <= PAGE && offset % SYSTEM_PAGE == 0 && (page + offset) % SYSTEM_PAGE == 0
        invariant TouchedTo(old(memory), memory, page, offset)
      {
        NextTouch(old(memory), memory, page, offset);
        memory := memory[page + offset := Read(memory, page + offset) / 256 * 256];
        offset := offset + SYSTEM_PAGE;
      }
    }

    method AllocateSlowLocked(thread: nat, index: nat, page: nat) returns (block: nat)
      requires Valid() && index < NUM_CLASSES
      requires page == NULL || (page % PAGE == 0 && page !in slabs)
      modifies this
      ensures Valid()
      ensures block == NULL <==> page == NULL
      ensures block == NULL ==> memory == old(memory) && slabs == old(slabs) && shapes == old(shapes)
      ensures block != NULL ==> HandedOut(old(slabs), old(shapes), slabs, shapes, block) && SizeOf(block) == CLASS_SIZES[index]
      ensures block != NULL ==> TouchedTo(old(memory), memory, page, PAGE)
      // The new slab is the thread's own from now on.
      ensures active == if block == NULL then old(active) else old(active)[(thread, index) := PageOf(block)]
    {
      hide TotalSlots, PageOf, HeapValid, SlabValid, LiveIn, HandedOut, Read;
      if page == NULL {
        return NULL;
      }
      ghost var former := memory;
      Prefault(page);
      PrefaultedElsewhere(former, page);
      var size := CLASS_SIZES[index];
      var h := SlabHeader(NULL, index, size, TotalSlots(size), 1);
      FreshSlab(memory, page, index);
      HeapKeys(former, slabs, shapes);
      HandOut(former, memory, slabs, shapes, page, h, Shape({0}, []), 0);
      slabs := slabs[page := h];
      shapes := shapes[page := Shape({0}, [])];
      active := active[(thread, index) := page];
      block := page + HEADER;
      assert block == Slot(page, size, 0);
    }

    // size is at most 1024; page is what the page table would give.
    method Allocate(thread: nat, size: nat, page: nat) returns (block: nat)
      requires Valid() && size <= 1024
      requires page == NULL || (page % PAGE == 0 && page !in slabs)
      modifies this
      ensures Valid()
      ensures 0 <= ClassIndex(size) < NUM_CLASSES
      ensures block == NULL <==> page == NULL && !old(HasRoom(thread, ClassIndex(size)))
      ensures block == NULL ==> memory == old(memory) && slabs == old(slabs) && shapes == old(shapes)
      ensures block != NULL ==> HandedOut(old(slabs), old(shapes), slabs, shapes, block)
      // Memory is as it was, but for the touches in a new page, where no block was live.
      ensures old(HasRoom(thread, ClassIndex(size))) ==> memory == old(memory)
      ensures !old(HasRoom(thread, ClassIndex(size))) && block != NULL ==> TouchedTo(old(memory), memory, page, PAGE)
      ensures OthersKept(old(memory), memory, old(slabs), old(shapes), {})
      ensures block != NULL ==> size <= SizeOf(block) == CLASS_SIZES[ClassIndex(size)]
      // The thread's slab serves while it can, its last freed slot first.
      ensures old(HasRoom(thread, ClassIndex(size))) ==> active == old(active) && PageOf(block) == active[(thread, ClassIndex(size))]
      ensures old(HasRoom(thread, ClassIndex(size))) && old(FreeHead(thread, ClassIndex(size))) != NULL ==>
        block == old(FreeHead(thread, ClassIndex(size)))
      ensures !old(HasRoom(thread, ClassIndex(size))) && block != NULL ==>
        active == old(active)[(thread, ClassIndex(size)) := PageOf(block)]
    {
      hide TotalSlots, PageOf, HeapValid, SlabValid, LiveIn, HandedOut, ClassIndex, Partition, Read, Slot;
      ClassFits(size);
      SameKept(memory, slabs, shapes, {});
      var index := ClassIndex(size);
      if (thread, index) in active {
        var slab := active[(thread, index)];
        var h := slabs[slab];
        HeapSlab(memory, slabs, shapes, slab);
        if h.freeList != NULL {
          TakeFree(memory, slab, h, shapes[slab]);
          ghost var k, shape := shapes[slab].free[0], Shape(shapes[slab].live + {shapes[slab].free[0]}, shapes[slab].free[1..]);
          FirstFree(shapes[slab], h.bump);
          block := h.freeList;
          HandOut(memory, memory, slabs, shapes, slab, h.(freeList := Read(memory, block)), shape, k);
          slabs := slabs[slab := h.(freeList := Read(memory, block))];
          shapes := shapes[slab := shape];
          return;
        }
        if h.bump < h.totalSlots {
          TakeFresh(memory, slab, h, shapes[slab]);
          NextFresh(shapes[slab], h.bump);
          ghost var shape := Shape(shapes[slab].live + {h.bump}, shapes[slab].free);
          HandOut(memory, memory, slabs, shapes, slab, h.(bump := h.bump + 1), shape, h.bump);
          block := Slot(slab, h.slotSize, h.bump);
          slabs := slabs[slab := h.(bump := h.bump + 1)];
          shapes := shapes[slab := shape];
          return;
        }
      }
      ghost var former, slabs0, shapes0 := memory, slabs, shapes;
      block := AllocateSlowLocked(thread, index, page);
      if block != NULL {
        PrefaultedElsewhere(former, page);
        FreshPageKept(former, memory, slabs0, shapes0, page);
      }
    }

    // block is null or live.
    method Free(block: nat) returns (size: nat)
      requires Valid() && (block == NULL || Live(block))
      modifies this
      ensures Valid()
      ensures block == NULL ==> size == 0 && memory == old(memory) && slabs == old(slabs) && shapes == old(shapes)
      ensures block != NULL ==> size == old(SizeOf(block)) && TakenBack(old(slabs), old(shapes), slabs, shapes, block)
      ensures forall a: nat :: a != block ==> Read(memory, a) == old(Read(memory, a))
      ensures block != NULL ==> OthersKept(old(memory), memory, old(slabs), old(shapes), {block})
      // The block heads its slab's free list and leads to the former head.
      ensures block != NULL ==>
        && PageOf(block) in slabs && PageOf(block) in old(slabs) && slabs[PageOf(block)].freeList == block
        && Read(memory, block) == old(slabs[PageOf(block)].freeList)
    {
      hide TotalSlots, PageOf, HeapValid, SlabValid, TakenBack, Partition, Slot, OthersKept;
      if block == NULL {
        return 0;
      }
      var slab := PageOf(block);
      ghost var k := LiveIsSlot(memory, slabs, shapes, block);
      var h := slabs[slab];
      HeapSlab(memory, slabs, shapes, slab);
      GiveBack(memory, slab, h, shapes[slab], k);
      ghost var shape := Shape(shapes[slab].live - {k}, [k] + shapes[slab].free);
      ghost var memory' := memory[block := h.freeList];
      TakeBack(memory, memory', slabs, shapes, slab, h.(freeList := block), shape, k);
      FreedKept(memory, memory', slabs, shapes, block);
      memory := memory[block := h.freeList];
      slabs := slabs[slab := h.(freeList := block)];
      shapes := shapes[slab := shape];
      size := h.slotSize;
    }

    // The owner of a live block writes one of its words.
    method Write(block: nat, offset: nat, value: nat)
      requires Valid() && Live(block) && offset < SizeOf(block)
      modifies this`memory
      ensures Valid() && memory == old(memory)[block + offset := value]
      ensures OthersKept(old(memory), memory, slabs, shapes, {block})
    {
      hide TotalSlots, PageOf, HeapValid, SlabValid, LiveIn, OthersKept;
      WrittenKept(memory, slabs, shapes, block, offset, value);
      OwnWord(memory, slabs, shapes, block, offset, value);
      memory := memory[block + offset := value];
    }

    // MemCopy, a word at a time.
    method CopyWords(target: nat, source: nat, size: nat)
      requires Valid() && Live(target) && Live(source) && target != source && size <= SizeOf(target) && size <= SizeOf(source)
      requires size % 8 == 0
      modifies this`memory
      ensures Valid()
      ensures forall i: nat :: i < size / 8 ==> Read(memory, target + 8 * i) == old(Read(memory, source + 8 * i))
      ensures forall a: nat :: !(target <= a < target + size) ==> Read(memory, a) == old(Read(memory, a))
    {
      hide TotalSlots, PageOf, HeapValid, SlabValid, LiveIn, ActiveValid;
      LiveApart(memory, slabs, shapes, target, source);
      var i := 0;
      while i < size / 8
        invariant i <= size / 8 && Valid()
        invariant forall j: nat :: j < i ==> Read(memory, target + 8 * j) == old(Read(memory, source + 8 * j))
        invariant forall a: nat :: !(target <= a < target + 8 * i) ==> Read(memory, a) == old(Read(memory, a))
      {
        Write(target, 8 * i, Read(memory, source + 8 * i));
        i := i + 1;
      }
    }

    // The end of a reallocation, from any heap in which both blocks are live, whatever other
    // threads have done since the new one was allocated.
    method MoveAndFree(moved: nat, block: nat)
      requires Valid() && Live(moved) && Live(block) && moved != block && SizeOf(block) <= SizeOf(moved)
      modifies this
      ensures Valid() && TakenBack(old(slabs), old(shapes), slabs, shapes, block)
      ensures Copied(old(memory), memory, block, moved, old(SizeOf(block)))
      ensures OthersKept(old(memory), memory, old(slabs), old(shapes), {block, moved})
    {
      hide TotalSlots, PageOf, HeapValid, SlabValid, LiveIn, ActiveValid, TakenBack, OthersKept, Copied, SizeIn;
      ghost var memory0 := memory;
      LiveSize(memory, slabs, shapes, block);
      var size := SizeOf(block);
      CopyWords(moved, block, size);
      ghost var memory1, slabs1, shapes1 := memory, slabs, shapes;
      var _ := Free(block);
      MovedKept(memory0, memory1, memory, slabs1, shapes1, block, moved, size);
    }

    // block is null or live; newSize is at most 1024.
    method ReAllocate(thread: nat, block: nat, newSize: nat, page: nat) returns (moved: nat)
      requires Valid() && (block == NULL || Live(block)) && newSize <= 1024
      requires page == NULL || (page % PAGE == 0 && page !in slabs)
      modifies this
      ensures Valid()
      // From nothing it is an allocation, to nothing a free, and a block that is large enough stays.
      ensures block == NULL && moved != NULL ==> HandedOut(old(slabs), old(shapes), slabs, shapes, moved) && newSize <= SizeOf(moved)
      ensures block != NULL && newSize == 0 ==> moved == NULL && TakenBack(old(slabs), old(shapes), slabs, shapes, block)
      ensures block != NULL && 0 < newSize <= old(SizeOf(block)) ==> moved == block
      // An allocation fails only where Allocate does, for want of both a slot and a page.
      ensures 0 <= ClassIndex(newSize) < NUM_CLASSES
      ensures block == NULL || newSize > old(SizeOf(block)) ==>
        (moved == NULL <==> page == NULL && !old(HasRoom(thread, ClassIndex(newSize))))
      ensures block != NULL && newSize > old(SizeOf(block)) ==> moved != block
      ensures moved != NULL && moved != block ==> SizeOf(moved) == CLASS_SIZES[ClassIndex(newSize)]
      // Out of memory, the old block is untouched.
      ensures moved == block || (moved == NULL && newSize > 0) ==>
        memory == old(memory) && slabs == old(slabs) && shapes == old(shapes)
      // Otherwise the contents move: the new block takes the old one's place.
      ensures moved != NULL ==> Live(moved) && newSize <= SizeOf(moved)
      ensures block != NULL && moved != NULL && moved != block ==>
        && Moved(old(slabs), old(shapes), slabs, shapes, block, moved)
        && Copied(old(memory), memory, block, moved, old(SizeOf(block)))
      // And no other live block's words change.
      ensures OthersKept(old(memory), memory, old(slabs), old(shapes), {block})
    {
      hide TotalSlots, PageOf, HeapValid, SlabValid, LiveIn, ActiveValid, ClassIndex;
      hide HandedOut, TakenBack, OthersKept, HasRoom, Moved, Copied;
      ghost var memory0, slabs0, shapes0 := memory, slabs, shapes;
      SameKept(memory, slabs, shapes, {block});
      ClassFits(newSize);
      if block == NULL {
        moved := Allocate(thread, newSize, page);
        FewerKept(memory0, memory, slabs0, shapes0, {block});
        if moved != NULL { HandedLive(slabs0, shapes0, slabs, shapes, moved); }
        return;
      }
      if newSize == 0 {
        var _ := Free(block);
        return NULL;
      }
      var size := SizeOf(block);
      if newSize <= size {
        return block;
      }
      LiveSize(memory, slabs, shapes, block);
      moved := Allocate(thread, newSize, page);
      if moved == NULL {
        return;
      }
      ghost var memory1, slabs1, shapes1 := memory, slabs, shapes;
      Fetched(slabs0, shapes0, slabs, shapes, moved, block);
      MoveAndFree(moved, block);
      MoveDone(memory0, slabs0, shapes0, memory1, slabs1, shapes1, memory, slabs, shapes, block, moved, size);
      StillSized(slabs1, shapes1, slabs, shapes, block, moved);
    }
  }

  ghost predicate ActiveValid(active: map<(nat, nat), nat>, slabs: Slabs) {
    forall key <- active :: active[key] in slabs && slabs[active[key]].classIndex == key.1
  }

  lemma FirstFree(shape: Shape, bump: nat)
    requires Partition(shape, bump) && shape.free != []
    ensures shape.free[0] < bump && shape.free[0] !in shape.live
  {
    assert shape.free[0] in shape.free;
  }

  lemma NextFresh(shape: Shape, bump: nat)
    requires Partition(shape, bump)
    ensures bump !in shape.live
  {}
}
