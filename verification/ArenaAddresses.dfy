/** Addresses in a core's shared arena and where a block's header lands in the pages
    taken for it (shared_arena.h, shared_arena_linux.cpp retrieve). */
module ArenaAddresses {

  import opened Arithmetic
  import opened ArenaModel
  import opened LogRing

  const U64: nat := 0x1_0000_0000_0000_0000
  const ARENA_BASE: nat := 0x2000_0000_0000
  const ARENA_CAPACITY: nat := 0x2000_0000
  const ARENA_HEADER_SIZE: nat := 4096
  const TOTAL_PAGES: nat := (ARENA_CAPACITY - ARENA_HEADER_SIZE) / PAGE_SIZE

  /** What the front end lets through (combined.h MaxAllowedMallocSize and MaxAlignment). */
  const MAX_MALLOC_SIZE: nat := 0x100_0000_0000
  const MAX_ALIGNMENT: nat := 0x100_0000
  const MAX_HEADERS_SIZE: nat := 4096

  // ------------------------------------------------------------------ addresses

  function DataBase(coreId: nat): nat {
    ARENA_BASE + coreId * ARENA_CAPACITY + ARENA_HEADER_SIZE
  }

  /** pageOffToAddr */
  function PageAddr(coreId: nat, off: nat): nat {
    DataBase(coreId) + off * PAGE_SIZE
  }

  /** addrToPageOff, with its word subtraction and its cast to 32 bits. */
  function PageOff(coreId: nat, addr: nat): nat {
    Wrap((addr - DataBase(coreId)) % U64 / PAGE_SIZE)
  }

  lemma PageOffInvertsPageAddr(coreId: nat, off: nat)
    requires off < U32
    ensures PageOff(coreId, PageAddr(coreId, off)) == off
    ensures PageAddr(coreId, off) % PAGE_SIZE == 0 && PageAddr(coreId, off) >= ARENA_BASE
  {
    hide DataBase;
    assert PageAddr(coreId, off) - DataBase(coreId) == off * PAGE_SIZE;
    PagesInWord(off);
    BaseIsAligned(coreId);
    AddMulMod(DataBase(coreId), off, PAGE_SIZE);
  }

  lemma PagesInWord(off: nat)
    requires off < U32
    ensures off * PAGE_SIZE % U64 / PAGE_SIZE == off && Wrap(off) == off
  {
    assert off * PAGE_SIZE < U64;
    DivUnique(off * PAGE_SIZE, PAGE_SIZE, off);
  }

  lemma BaseIsAligned(coreId: nat)
    ensures DataBase(coreId) % PAGE_SIZE == 0 && DataBase(coreId) >= ARENA_BASE
  {
    var pages := coreId * (ARENA_CAPACITY / PAGE_SIZE);
    assert coreId * ARENA_CAPACITY == pages * PAGE_SIZE;
    AddMulMod(ARENA_BASE + ARENA_HEADER_SIZE, pages, PAGE_SIZE);
  }

  /** The pages of an arena lie behind its header and within its share of the address space. */
  lemma PagesInArena(coreId: nat, r: Range)
    requires r.End() <= TOTAL_PAGES
    ensures PageAddr(coreId, r.off) == ARENA_BASE + coreId * ARENA_CAPACITY + ARENA_HEADER_SIZE + r.off * PAGE_SIZE
    ensures ARENA_BASE + coreId * ARENA_CAPACITY + ARENA_HEADER_SIZE <= PageAddr(coreId, r.off)
    ensures PageAddr(coreId, r.off) + r.pages * PAGE_SIZE <= ARENA_BASE + (coreId + 1) * ARENA_CAPACITY
  {
    assert ARENA_HEADER_SIZE + TOTAL_PAGES * PAGE_SIZE == ARENA_CAPACITY;
    assert r.off * PAGE_SIZE + r.pages * PAGE_SIZE == r.End() * PAGE_SIZE;
    assert (coreId + 1) * ARENA_CAPACITY == coreId * ARENA_CAPACITY + ARENA_CAPACITY;
  }

  /** The block of pages `r` of core `c`'s arena, by its address and size in bytes. */
  predicate IsBlock(c: nat, r: Range, commitBase: nat, commitSize: nat) {
    && commitSize == r.pages * PAGE_SIZE
    && commitBase == ARENA_BASE + c * ARENA_CAPACITY + ARENA_HEADER_SIZE + r.off * PAGE_SIZE
  }

  /** The bytes of two ranges do not overlap: neither within an arena, nor across arenas, nor
      with the header of any. */
  lemma BytesApart(c: nat, r: Range, d: nat, s: Range)
    requires r.End() <= TOTAL_PAGES && s.End() <= TOTAL_PAGES && (c == d ==> r.Apart(s))
    ensures
      var here := ARENA_BASE + c * ARENA_CAPACITY + ARENA_HEADER_SIZE + r.off * PAGE_SIZE;
      var there := ARENA_BASE + d * ARENA_CAPACITY + ARENA_HEADER_SIZE + s.off * PAGE_SIZE;
      here + r.pages * PAGE_SIZE <= there || there + s.pages * PAGE_SIZE <= here
  {
    PagesInArena(c, r);
    PagesInArena(d, s);
    if c < d {
      MulMono(c + 1, d, ARENA_CAPACITY);
    } else if d < c {
      MulMono(d + 1, c, ARENA_CAPACITY);
    }
  }

  lemma HeadersApart(c: nat, r: Range, d: nat)
    requires r.End() <= TOTAL_PAGES
    ensures
      var here := ARENA_BASE + c * ARENA_CAPACITY + ARENA_HEADER_SIZE + r.off * PAGE_SIZE;
      var header := ARENA_BASE + d * ARENA_CAPACITY;
      here + r.pages * PAGE_SIZE <= header || header + ARENA_HEADER_SIZE <= here
  {
    PagesInArena(c, r);
    if c < d {
      MulMono(c + 1, d, ARENA_CAPACITY);
    } else {
      MulMono(d, c, ARENA_CAPACITY);
    }
  }

  /** The pages a store call names, after the casts. */
  function StoreRange(coreId: nat, commitBase: nat, commitSize: nat): Range {
    Range(PageOff(coreId, commitBase), Wrap(commitSize / PAGE_SIZE))
  }

  /** The guard of store. */
  predicate Accepts(coreId: nat, commitBase: nat, commitSize: nat) {
    var r := StoreRange(coreId, commitBase, commitSize);
    && commitSize != 0
    && commitBase % PAGE_SIZE == 0 && commitSize % PAGE_SIZE == 0
    && r.off < TOTAL_PAGES && r.pages != 0 && r.pages <= TOTAL_PAGES - r.off
  }

  /** What retrieve handed out, store takes back as the same pages. */
  lemma HandedOutIsStorable(coreId: nat, r: Range)
    requires r.pages > 0 && r.End() <= TOTAL_PAGES
    ensures Accepts(coreId, PageAddr(coreId, r.off), r.pages * PAGE_SIZE)
    ensures StoreRange(coreId, PageAddr(coreId, r.off), r.pages * PAGE_SIZE) == r
  {
    hide PageOff, PageAddr;
    PageOffInvertsPageAddr(coreId, r.off);
    WholePages(r.pages);
  }

  // ------------------------------------------------------------------ placement

  function NeededSize(size: nat, headersSize: nat): (n: nat)
    ensures n >= size + headersSize
  {
    CeilFacts(size + headersSize, PAGE_SIZE);
    RoundUp(size + headersSize, PAGE_SIZE)
  }

  function NeededPages(size: nat, headersSize: nat): nat {
    Wrap(NeededSize(size, headersSize) / PAGE_SIZE)
  }

  function HeaderPos(allocBase: nat, size: nat, alignment: nat, headersSize: nat): int
    requires alignment > 0
  {
    RoundDown(allocBase + NeededSize(size, headersSize) - size, alignment) - headersSize
  }

  predicate Placeable(allocBase: nat, size: nat, alignment: nat, headersSize: nat)
    requires alignment > 0
  {
    allocBase <= HeaderPos(allocBase, size, alignment, headersSize)
  }

  predicate CanPlace(coreId: nat, r: Range, size: nat, alignment: nat, headersSize: nat)
    requires alignment > 0
  {
    Placeable(PageAddr(coreId, r.off), size, alignment, headersSize)
  }

  lemma PlaceableMeans(allocBase: nat, size: nat, alignment: nat, headersSize: nat)
    requires alignment > 0
    ensures Placeable(allocBase, size, alignment, headersSize)
      <==> allocBase <= HeaderPos(allocBase, size, alignment, headersSize)
  {
  }

  lemma NeededSizeFacts(size: nat, headersSize: nat)
    requires 0 < size + headersSize && size < MAX_MALLOC_SIZE && headersSize <= MAX_HEADERS_SIZE
    ensures size + headersSize <= NeededSize(size, headersSize) < size + headersSize + PAGE_SIZE
    ensures NeededSize(size, headersSize) == NeededPages(size, headersSize) * PAGE_SIZE
    ensures 0 < NeededPages(size, headersSize) < 0x2000_0000
    ensures NeededSize(size, headersSize) % PAGE_SIZE == 0
  {
    var x := size + headersSize;
    CeilFacts(x, PAGE_SIZE);
    var q := CeilDiv(x, PAGE_SIZE);
    assert NeededSize(size, headersSize) == q * PAGE_SIZE;
    assert q * PAGE_SIZE / PAGE_SIZE == q;
    assert q < 0x2000_0000;
  }

  /** Is there room for the header in front of the aligned block?  A caller can tell from
      the request alone. */
  predicate HeaderFits(size: nat, alignment: nat, headersSize: nat)
    requires alignment > 0
  {
    (NeededSize(size, headersSize) - size) % alignment <= NeededSize(size, headersSize) - size - headersSize
  }

  lemma PlaceableAt(allocBase: nat, size: nat, alignment: nat, headersSize: nat)
    requires 0 < size + headersSize && size < MAX_MALLOC_SIZE && headersSize <= MAX_HEADERS_SIZE
    requires alignment > 0
    ensures Placeable(allocBase, size, alignment, headersSize) <==>
      (allocBase + NeededSize(size, headersSize) - size) % alignment <=
        NeededSize(size, headersSize) - size - headersSize
  {
    NeededSizeFacts(size, headersSize);
    var x := allocBase + NeededSize(size, headersSize) - size;
    assert x == x / alignment * alignment + x % alignment;
  }

  /** Wherever the pages lie, the header can be placed exactly when the request has room for
      it, for any alignment that divides the page size. */
  lemma PlaceableIff(coreId: nat, off: nat, size: nat, alignment: nat, headersSize: nat)
    requires 0 < size + headersSize && size < MAX_MALLOC_SIZE && headersSize <= MAX_HEADERS_SIZE
    requires alignment > 0 && PAGE_SIZE % alignment == 0 && off < U32
    ensures Placeable(PageAddr(coreId, off), size, alignment, headersSize) <==> HeaderFits(size, alignment, headersSize)
  {
    hide Placeable, PageAddr, NeededSize;
    var base := PageAddr(coreId, off);
    NeededSizeFacts(size, headersSize);
    PlaceableAt(base, size, alignment, headersSize);
    PageOffInvertsPageAddr(coreId, off);
    AlignedBase(base, alignment);
    AddMulMod(NeededSize(size, headersSize) - size, base / alignment, alignment);
  }

  lemma AlignedBase(base: nat, alignment: nat)
    requires alignment > 0 && PAGE_SIZE % alignment == 0 && base % PAGE_SIZE == 0
    ensures base == base / alignment * alignment
  {
    var a, b := base / PAGE_SIZE, PAGE_SIZE / alignment;
    assert base == a * (b * alignment) == (a * b) * alignment;
    DivUnique(base, alignment, a * b);
  }

  /** With 80 bytes of headers, a request for 80 bytes less than a megabyte, too large for
      any size class, fills 256 pages; aligned to 32 it has no room for its header. */
  lemma MegabyteWithoutRoom()
    ensures
      var size := 0x10_0000 - 80;
      PAGE_SIZE % 32 == 0 && NeededPages(size, 80) == 256 && !HeaderFits(size, 32, 80)
  {
    assert 0x10_0000 == 256 * PAGE_SIZE;
    CeilUnique(0x10_0000, PAGE_SIZE, 256);
  }

  /** Placement cannot fail when the alignment divides the header size and the page. */
  lemma AlignedHeadersArePlaceable(allocBase: nat, size: nat, alignment: nat, headersSize: nat, h: nat, b: nat)
    requires 0 < size + headersSize && size < MAX_MALLOC_SIZE && headersSize <= MAX_HEADERS_SIZE
    requires alignment > 0 && headersSize == h * alignment && allocBase == b * alignment
    ensures Placeable(allocBase, size, alignment, headersSize)
  {
    NeededSizeFacts(size, headersSize);
    var x := allocBase + NeededSize(size, headersSize) - size;
    DivFacts(x, alignment);
    assert (b + h) * alignment == b * alignment + h * alignment;
    MulCancel(b + h, x / alignment + 1, alignment);
    MulMono(b + h, x / alignment, alignment);
  }

  /** It always fails for a request that fills its pages exactly when the base is aligned
      but the header size is not: the pages are then lost to the arena. */
  lemma ExactFitIsNotPlaceable(allocBase: nat, size: nat, alignment: nat, headersSize: nat, b: nat)
    requires 0 < size + headersSize && size < MAX_MALLOC_SIZE && headersSize <= MAX_HEADERS_SIZE
    requires alignment > 0 && allocBase == b * alignment && headersSize % alignment != 0
    requires (size + headersSize) % PAGE_SIZE == 0
    ensures !Placeable(allocBase, size, alignment, headersSize)
  {
    NeededSizeFacts(size, headersSize);
    PlaceableAt(allocBase, size, alignment, headersSize);
    var x := allocBase + NeededSize(size, headersSize) - size;
    assert x == headersSize + b * alignment;
    AddMulMod(headersSize, b, alignment);
  }

  /** Where the block goes, and that no address computation wraps. */
  lemma PlacementFacts(allocBase: nat, size: nat, alignment: nat, headersSize: nat)
    requires 0 < size + headersSize && size < MAX_MALLOC_SIZE && headersSize <= MAX_HEADERS_SIZE
    requires 0 < alignment <= MAX_ALIGNMENT && ARENA_BASE <= allocBase
    ensures 0 <= HeaderPos(allocBase, size, alignment, headersSize)
    ensures var pos := HeaderPos(allocBase, size, alignment, headersSize) + headersSize;
      && pos + size <= allocBase + NeededSize(size, headersSize) < pos + size + alignment
      && pos % alignment == 0
  {
    NeededSizeFacts(size, headersSize);
    var x := allocBase + NeededSize(size, headersSize) - size;
    DivFacts(x, alignment);
    assert (x / alignment + 1) * alignment == x / alignment * alignment + alignment;
    AddMulMod(0, x / alignment, alignment);
  }

  /** 64-bit addition and subtraction. */
  function Plus64(x: nat, a: nat): (r: nat)
    ensures r < U64
  {
    (x + a) % U64
  }

  function Minus64(x: nat, a: nat): (r: nat)
    ensures r < U64
  {
    (x - a) % U64
  }

  lemma Minus64Undoes(x: nat, a: nat)
    requires x < U64
    ensures Minus64(Plus64(x, a), a) == x
  {
    var y := x + a;
    assert y == y / U64 * U64 + y % U64;
    ModOfShift(x, y / U64, U64);
  }

  lemma Wrap32Undoes(x: nat)
    requires x < U32
    ensures Wrap(Wrap(x + 1) - 1) == x
  {
  }

  lemma WholePages(pages: nat)
    requires pages < U32
    ensures pages * PAGE_SIZE % PAGE_SIZE == 0 && Wrap(pages * PAGE_SIZE / PAGE_SIZE) == pages
  {
  }

  lemma ModOfShift(x: nat, q: int, m: nat)
    requires m > 0 && x < m
    ensures (x - q * m) % m == x
  {
    RemainderUnique(x - q * m, -q, x, m);
  }

  lemma RemainderUnique(z: int, k: int, x: nat, m: nat)
    requires m > 0 && x < m && z == k * m + x
    ensures z % m == x
  {
    var k' := z / m;
    assert z == k' * m + z % m;
    assert (k' + 1) * m == k' * m + m && (k + 1) * m == k * m + m;
    if k' < k {
      MulMono(k' + 1, k, m);
    } else if k < k' {
      MulMono(k + 1, k', m);
    }
  }
}
