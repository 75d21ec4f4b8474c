/** The block allocator: up to 24 pages, each twice the one before, and fixed-size blocks handed
    out from the page that had room last. */
module BlockAllocator {
  import opened BaLayout
  import opened BlockPage
  import opened BlockWalk
  import opened Basics

  const MAX_PAGES: nat := 24
  const PAGE_HEADER: nat := 16
  const ADDRESSES: nat := 0x1_0000_0000_0000_0000

  /** A pointer into the allocator: block i of a page. */
  datatype Block = Block(page: nat, i: nat)

  // ---- The allocator as its users see it: the free blocks of each page ----

  function BlocksOf(blocks: nat, k: nat): nat {
    blocks * Pow2(k)
  }

  /** Block b is handed out, when page k has the free blocks frees[k]. */
  ghost predicate Live(blocks: nat, frees: seq<seq<nat>>, b: Block) {
    b.page < |frees| && b.i < BlocksOf(blocks, b.page) && b.i !in frees[b.page]
  }

  /** Page k has nothing handed out. */
  ghost predicate Empty(blocks: nat, frees: seq<seq<nat>>, k: nat)
    requires k < |frees|
  {
    forall i :: 0 <= i < BlocksOf(blocks, k) ==> i in frees[k]
  }

  class Allocator {
    const l: Layout
    const pages: array<Page?>
    var size: nat
    var lastFree: nat
    var alloc: nat
    ghost var repr: set<object>          // the pages in use and their block arrays
    ghost var frees: seq<seq<nat>>       // the free blocks of each page

    /** Page k exists and has its own blocks, twice as many as page k-1. */
    ghost predicate Paged(k: nat)
      reads this`frees, this`repr, pages, repr
      requires k < pages.Length && k < |frees|
    {
      && pages[k] != null && pages[k] in repr && pages[k].next in repr
      && pages[k].blocks == BlocksOf(l.blocks, k)
      && pages[k].Listed() && pages[k].free == frees[k]
      && PageBytes(l, k) < WORD && pages[k].base + PageBytes(l, k) <= ADDRESSES
    }

    ghost predicate Apart(j: nat, k: nat)
      reads pages
      requires j < pages.Length && k < pages.Length
    {
      pages[j] != null && pages[k] != null ==>
        && pages[j] != pages[k] && pages[j].next != pages[k].next
        && DisjointRanges(pages[j].base, PageBytes(l, j), pages[k].base, PageBytes(l, k))
    }

    ghost predicate Valid()
      reads this, pages, repr
    {
      && Exact(l, l.blocks)
      && pages.Length == MAX_PAGES && size <= MAX_PAGES && |frees| == size
      && this !in repr && pages !in repr
      && (forall k :: 0 <= k < size ==> Paged(k))
      && (forall j, k :: 0 <= j < k < size ==> Apart(j, k))
      && (forall k :: size <= k < MAX_PAGES ==> pages[k] == null)
      && (alloc < size || alloc == size == 0)
      && (lastFree < size || lastFree == size == 0)
    }

    /** No page has ONE on its last block, and no new page will: one of a single block would. */
    ghost predicate Safe()
      reads this, pages, repr
      requires Valid()
    {
      l.blocks >= 2 && forall k :: 0 <= k < size ==> PageSafe(k)
    }

    ghost predicate PageSafe(k: nat)
      reads this, pages, repr
      requires Valid() && k < size
    {
      assert Paged(k);
      pages[k].Valid()
    }

    /** ba_init, for a first page whose last block is within reach of a 32-bit offset. */
    constructor (blockSize: nat, blocks: nat)
      requires blockSize < WORD && blocks < WORD && LastBlockFits(blockSize, blocks)
      ensures Valid() && fresh(pages) && repr == {} && frees == [] && l == InitLayout(blockSize, blocks)
      ensures Safe() <==> blocks >= 2
    {
      InitExactly(blockSize, blocks);
      InitBlocksRound(blocks);
      l := InitLayout(blockSize, blocks);
      pages := new Page?[MAX_PAGES](_ => null);
      size, lastFree, alloc := 0, 0, 0;
      repr, frees := {}, [];
    }

    lemma Separate(k: nat)
      requires Valid() && k < size
      ensures pages[k] != null
      ensures forall j :: 0 <= j < size && j != k ==>
                pages[j] != null && pages[j] != pages[k] && pages[j].next != pages[k].next
    {
      assert Paged(k);
      forall j | 0 <= j < size && j != k
        ensures pages[j] != null && pages[j] != pages[k] && pages[j].next != pages[k].next
      {
        assert Paged(j) && (if j < k then Apart(j, k) else Apart(k, j));
      }
    }

    /** Only page k's Page object changed, and its list is the k-th one now. */
    twostate lemma PageChanged(k: nat)
      requires old(Valid()) && k < size == old(size) && repr == old(repr)
      requires forall j :: 0 <= j < MAX_PAGES ==> pages[j] == old(pages[j])
      requires |frees| == size && Paged(k)
      requires forall j :: 0 <= j < size && j != k ==>
                 pages[j] != null && unchanged(pages[j]) && unchanged(pages[j].next)
      requires forall j :: 0 <= j < size && j != k ==> frees[j] == old(frees[j])
      requires (alloc < size || alloc == size == 0) && (lastFree < size || lastFree == size == 0)
      ensures Valid() && forall j: nat :: j < size && j != k ==> (PageSafe(j) <==> old(PageSafe(j)))
    {
      forall j | 0 <= j < size ensures Paged(j) {
        assert old(Paged(j));
      }
      forall i, j | 0 <= i < j < size ensures Apart(i, j) {
        assert old(Apart(i, j));
        assert old(Paged(i)) && old(Paged(j));
      }
    }

    /** Every page is full. */
    ghost predicate Full()
      reads this`frees
    {
      forall k :: 0 <= k < |frees| ==> frees[k] == []
    }

    /** A new page at this address: its bytes are within the address space, and no other page's. */
    ghost predicate Roomy(at: nat)
      reads this, pages, set k | 0 <= k < pages.Length :: pages[k]
    {
      && at + PageBytes(l, size) <= ADDRESSES
      && forall k :: 0 <= k < size && k < pages.Length && pages[k] != null ==>
           DisjointRanges(pages[k].base, PageBytes(l, k), at, PageBytes(l, size))
    }

    /** The next page can be described by its layout, and memory for it is found at this address; or the
        layout is rejected. */
    ghost predicate CanGrow(at: nat)
      reads this, pages, set k | 0 <= k < pages.Length :: pages[k]
    {
      size == MAX_PAGES || RejectsPage(l, size, PAGE_HEADER) || (PageBytes(l, size) < WORD && Roomy(at))
    }

    /** Add a page at the end; none when the page table is full or the layout looks overflowed. */
    method AllocPage(at: nat) returns (ok: bool)
      requires Valid() && CanGrow(at)
      modifies this`size, this`alloc, this`repr, this`frees, pages
      ensures Valid() && lastFree == old(lastFree)
      ensures ok <==> old(size) < MAX_PAGES && !RejectsPage(l, old(size), PAGE_HEADER)
      ensures ok ==> frees == old(frees) + [Tail(0, BlocksOf(l.blocks, old(size)))] && alloc == old(size)
      ensures !ok ==> frees == old(frees) && alloc == old(alloc) && repr == old(repr)
      ensures old(Safe()) ==> Safe()
      ensures old(repr) <= repr && fresh(repr - old(repr))
    {
      if size == MAX_PAGES || RejectsPage(l, size, PAGE_HEADER) {
        return false;
      }
      IncExact(l, l.blocks, size, PAGE_HEADER);
      var blocks := IncLayout(l, size).blocks;
      MulAtLeast(l.blocks, Pow2(size));
      var p := new Page(blocks, at);
      pages[size] := p;
      alloc := size;
      repr := repr + {p, p.next};
      frees := frees + [p.free];
      size := size + 1;
      ok := true;
      assert Paged(alloc);
      PageAdded();
      if old(Safe()) {
        forall j: nat | j < size ensures PageSafe(j) {
          assert j < alloc ==> old(PageSafe(j));
        }
      }
    }

    /** A new page with blocks and memory of its own was put at the end. */
    twostate lemma PageAdded()
      requires old(Valid()) && size == old(size) + 1 <= MAX_PAGES && alloc == old(size) && lastFree == old(lastFree)
      requires forall j :: 0 <= j < MAX_PAGES && j != alloc ==> pages[j] == old(pages[j])
      requires |frees| == size && (forall j :: 0 <= j < alloc ==> frees[j] == old(frees[j])) && Paged(alloc)
      requires old(repr) <= repr && this !in repr && pages !in repr && forall o :: o in old(repr) ==> unchanged(o)
      requires pages[alloc] !in old(repr) && pages[alloc].next !in old(repr)
      requires forall j :: 0 <= j < alloc && pages[j] != null ==>
        DisjointRanges(pages[j].base, PageBytes(l, j), pages[alloc].base, PageBytes(l, alloc))
      ensures Valid() && forall j: nat :: j < alloc ==> (PageSafe(j) <==> old(PageSafe(j)))
    {
      forall j | 0 <= j < alloc ensures Paged(j) && Apart(j, alloc) {
        assert old(Paged(j));
      }
      forall i, j | 0 <= i < j < alloc ensures Apart(i, j) {
        assert old(Apart(i, j));
      }
      forall j: nat | j < alloc ensures PageSafe(j) <==> old(PageSafe(j)) {
        assert old(Paged(j));
      }
    }

    /** Make `alloc` a page with room: the last one that has any, or a new one. */
    method LowAlloc(at: nat) returns (ok: bool)
      requires Valid() && (Full() ==> CanGrow(at))
      modifies this`size, this`alloc, this`repr, this`frees, pages
      ensures Valid() && lastFree == old(lastFree)
      ensures ok ==> alloc < size && frees[alloc] != [] && forall k :: alloc < k < size ==> frees[k] == []
      ensures ok ==> frees == old(frees) ||
                     (frees == old(frees) + [Tail(0, BlocksOf(l.blocks, old(size)))] && alloc == old(size))
      ensures !ok <==> old(Full()) && (old(size) == MAX_PAGES || RejectsPage(l, old(size), PAGE_HEADER))
      ensures !ok || !old(Full()) ==> frees == old(frees)
      ensures old(Safe()) ==> Safe()
      ensures old(repr) <= repr && fresh(repr - old(repr))
    {
      var i := size - 1;
      while i >= 0
        invariant -1 <= i < size
        invariant forall k :: i < k < size ==> frees[k] == []
      {
        assert Paged(i);
        var p := pages[i];
        if p.first != Null {
          alloc := i;
          Elsewhere();
          return true;
        }
        i := i - 1;
      }
      ok := AllocPage(at);
      if ok {
        MulAtLeast(l.blocks, Pow2(old(size)));
      }
    }

    /** Hand out a block.  None: the page table is full or the next page would be too large. */
    method Alloc(at: nat) returns (r: Option<Block>)
      requires Valid() && Safe() && (Full() ==> CanGrow(at))
      modifies this`size, this`alloc, this`repr, this`frees, pages, repr
      ensures Valid() && Safe() && lastFree == old(lastFree)
      ensures r.None? <==> old(Full()) && (old(size) == MAX_PAGES || RejectsPage(l, old(size), PAGE_HEADER))
      ensures r.None? ==> frees == old(frees)
      ensures r.Some? ==> Handed(l.blocks, old(frees), frees, r.value)
      ensures r.Some? ==> alloc == r.value.page
      ensures r.Some? && old(alloc) < old(size) && old(frees)[old(alloc)] != [] ==> alloc == old(alloc)
      ensures r.Some? && (old(size) == 0 || old(frees)[old(alloc)] == []) ==>
                forall k :: alloc < k < old(size) ==> old(frees)[k] == []
      ensures r.Some? && r.value.page == old(size) ==> old(Full())
      ensures r.Some? ==> var b := r.value;
                b.page < size && Live(l.blocks, frees, b) && !Live(l.blocks, old(frees), b)
      ensures r.Some? ==> forall c :: Live(l.blocks, frees, c) <==> c == r.value || Live(l.blocks, old(frees), c)
      ensures old(repr) <= repr && fresh(repr - old(repr))
    {
      var p := pages[alloc];
      if size > 0 { assert Paged(alloc); }
      if p == null || p.first == Null {
        var ok := LowAlloc(at);
        if !ok {
          return None;
        }
      }
      ghost var mid := frees;
      var ptr := TakeFrom();
      r := Some(Block(alloc, ptr));
      LiveAfterTake(l.blocks, old(frees), mid, frees, alloc);
    }

    /** Take the first free block of page `alloc`. */
    method TakeFrom() returns (ptr: nat)
      requires Valid() && Safe() && alloc < size && frees[alloc] != []
      modifies this`frees, repr
      ensures Valid() && Safe() && ptr == old(frees)[alloc][0] && frees == old(frees)[alloc := old(frees)[alloc][1..]]
      ensures Distinct(old(frees)[alloc]) && forall i :: i in old(frees)[alloc] ==> i < BlocksOf(l.blocks, alloc)
    {
      assert Paged(alloc) && PageSafe(alloc);
      var p := pages[alloc];
      DenotesInRange(p.next[..], p.first, p.free);
      Separate(alloc);
      ptr := p.Take();
      frees := frees[alloc := p.free];
      PageChanged(alloc);
    }

    /** A cut-off table of sound pages is sound. */
    twostate lemma PagesDropped()
      requires old(Valid()) && size <= old(size) && repr == old(repr) && frees == old(frees)[..size]
      requires forall k :: 0 <= k < size ==> pages[k] == old(pages[k])
      requires forall k :: size <= k < MAX_PAGES ==> pages[k] == null
      requires forall o :: o in repr ==> unchanged(o)
      requires (alloc < size || alloc == size == 0) && (lastFree < size || lastFree == size == 0)
      ensures Valid() && forall k: nat :: k < size ==> (PageSafe(k) <==> old(PageSafe(k)))
    {
      forall k | 0 <= k < size ensures Paged(k) {
        assert old(Paged(k));
      }
      forall j, k | 0 <= j < k < size ensures Apart(j, k) {
        assert old(Apart(j, k));
      }
      forall k: nat | k < size ensures PageSafe(k) <==> old(PageSafe(k)) {
        assert old(Paged(k));
      }
    }

    /** Only the cursors changed. */
    twostate lemma Elsewhere()
      requires old(Valid()) && size == old(size) && repr == old(repr) && frees == old(frees)
      requires (alloc < size || alloc == size == 0) && (lastFree < size || lastFree == size == 0)
      requires unchanged(pages) && forall o :: o in repr ==> unchanged(o)
      ensures Valid() && forall k: nat :: k < size ==> (PageSafe(k) <==> old(PageSafe(k)))
    {
      forall k | 0 <= k < size ensures Paged(k) {
        assert old(Paged(k));
      }
      forall j, k | 0 <= j < k < size ensures Apart(j, k) {
        assert old(Apart(j, k));
      }
      forall k: nat | k < size ensures PageSafe(k) <==> old(PageSafe(k)) {
        assert old(Paged(k));
      }
    }

    /** Let go of the pages at the end that have nothing handed out; i is the last one kept. */
    method ReleasePages() returns (i: int)
      requires Valid()
      modifies pages
      ensures -1 <= i < size
      ensures forall k :: 0 <= k <= i ==> pages[k] == old(pages[k])
      ensures forall k :: i < k < MAX_PAGES ==> pages[k] == null
      ensures forall k :: i < k < size ==> Empty(l.blocks, frees, k)
      ensures i >= 0 ==> !Empty(l.blocks, frees, i)
    {
      i := size - 1;
      while i >= 0
        invariant -1 <= i < size
        invariant forall k :: 0 <= k <= i ==> pages[k] == old(pages[k])
        invariant forall k :: i < k < MAX_PAGES ==> pages[k] == null
        invariant forall k :: i < k < size ==> Empty(l.blocks, frees, k)
        modifies pages
      {
        assert old(Paged(i));
        var p := pages[i];
        if p.used != 0 {
          SomeTaken(p);
          break;
        }
        AllFree(p);
        pages[i] := null;
        i := i - 1;
      }
    }

    /** Drop the pages at the end that have nothing handed out. */
    method FreeEmptyPages()
      requires Valid()
      modifies this`size, this`alloc, this`lastFree, this`frees, pages
      ensures Valid() && size <= old(size) && size == |frees| && frees == old(frees)[..size]
      ensures forall k :: size <= k < old(size) ==> Empty(l.blocks, old(frees), k)
      ensures size > 0 ==> !Empty(l.blocks, frees, size - 1)
      ensures if size == old(size) then alloc == old(alloc) && lastFree == old(lastFree)
              else alloc == lastFree == if size == 0 then 0 else size - 1
      ensures forall k: nat :: k < size ==> (PageSafe(k) <==> old(PageSafe(k)))
    {
      var i := ReleasePages();
      frees := frees[..i + 1];
      if size != i + 1 {
        size := i + 1;
        alloc := if i < 0 then 0 else i;
        lastFree := alloc;
      }
      PagesDropped();
    }

    /** The address of a block. */
    function Address(b: Block): nat
      reads this, pages, repr
      requires Valid() && b.page < size
    {
      assert Paged(b.page);
      pages[b.page].base + b.i * l.blockSize
    }

    /** A block is inside its page. */
    lemma Inside(b: Block)
      requires Valid() && b.page < size && b.i < BlocksOf(l.blocks, b.page)
      ensures pages[b.page] != null && Address(b) == pages[b.page].base + b.i * l.blockSize
      ensures Address(b) + l.blockSize <= pages[b.page].base + PageBytes(l, b.page)
    {
      assert Paged(b.page);
      PageBytesAre(l, b.page);
      hide BlocksOf, PageBytes, Paged, Exact;
      BlockInside(l.blockSize, b.i, BlocksOf(l.blocks, b.page));
    }

    /** Different blocks share no byte. */
    lemma BlocksApart(b: Block, c: Block)
      requires Valid() && b.page < size && b.i < BlocksOf(l.blocks, b.page)
      requires c.page < size && c.i < BlocksOf(l.blocks, c.page) && b != c
      ensures Address(b) + l.blockSize <= Address(c) || Address(c) + l.blockSize <= Address(b)
    {
      Inside(b);
      Inside(c);
      assert b.page < c.page ==> Apart(b.page, c.page);
      assert b.page > c.page ==> Apart(c.page, b.page);
      hide Valid, Address, PageBytes, BlocksOf;
      if b.page == c.page {
        PlacesApart(l.blockSize, b.i, c.i);
      } else {
        assert b.i * l.blockSize >= 0 && c.i * l.blockSize >= 0;
      }
    }

    /** Whether an address lies between the first and the last block of page k, with that page's layout. */
    function InPage(k: nat, lay: Layout, ptr: nat): bool
      reads this, pages, repr
      requires Valid() && k < size
    {
      assert Paged(k);
      (ptr - pages[k].base) % ADDRESSES <= lay.offset
    }

    /** The address of a block is in its own page only. */
    lemma InPageExactly(k: nat, b: Block)
      requires Valid() && k < size && b.page < size && b.i < BlocksOf(l.blocks, b.page)
      ensures InPage(k, IncLayout(l, k), Address(b)) <==> k == b.page
    {
      assert Paged(k) && Paged(b.page);
      assert k < b.page ==> Apart(k, b.page);
      assert k > b.page ==> Apart(b.page, k);
      var p, q := pages[k], pages[b.page];
      hide Paged, Apart, Exact, PageBytes, IncLayout, BlocksOf;
      AddressTest(l, k, p.base, b.page, q.base, b.i);
    }

    /** The page of an address: the last one used for this, or else found from the end, with the layout stepped
        back from page to page. */
    method FindPage(ptr: nat, ghost b: Block) returns (i: nat)
      requires Valid() && b.page < size && b.i < BlocksOf(l.blocks, b.page) && ptr == Address(b)
      modifies this`lastFree
      ensures Valid() && i == b.page == lastFree
      ensures forall k: nat :: k < size ==> (PageSafe(k) <==> old(PageSafe(k)))
    {
      i := lastFree;
      InPageExactly(i, b);
      if !InPage(i, IncLayout(l, i), ptr) {
        var j := size - 1;
        var lay := IncLayout(l, j);
        while j >= 0
          invariant b.page <= j < size && lay == IncLayout(l, j)
          invariant unchanged(this)
          decreases j
        {
          InPageExactly(j, b);
          if InPage(j, lay, ptr) {
            lastFree := j;
            i := j;
            break;
          }
          assert Paged(j);
          HalfLayout(l, j);
          j := j - 1;
          lay := DecLayout(lay, 1);
        }
      }
      Elsewhere();
    }

    /** Put the block on its page's list. */
    method GiveBack(b: Block)
      requires Valid() && Live(l.blocks, frees, b)
      modifies this`frees, repr
      ensures Valid() && frees == old(frees)[b.page := [b.i] + old(frees)[b.page]]
      ensures old(Safe()) ==> Safe()
    {
      assert Paged(b.page);
      Separate(b.page);
      var p := pages[b.page];
      p.Give(b.i);
      frees := frees[b.page := p.free];
      PageChanged(b.page);
      if old(Safe()) {
        forall k: nat | k < size ensures PageSafe(k) {
          assert old(PageSafe(k));
        }
      }
    }

    method ClearPage(k: nat)
      requires Valid() && k < size && Empty(l.blocks, frees, k)
      modifies this`frees, repr
      ensures Valid() && frees == old(frees)[k := Tail(0, BlocksOf(l.blocks, k))]
      ensures l.blocks >= 2 ==> PageSafe(k)
      ensures forall j: nat :: j < size && j != k ==> (PageSafe(j) <==> old(PageSafe(j)))
    {
      assert Paged(k);
      Separate(k);
      MulAtLeast(l.blocks, Pow2(k));
      pages[k].Clear();
      frees := frees[k := pages[k].free];
      PageChanged(k);
    }

    /** No block but b is handed out on its page. */
    ghost predicate OnlyOne(b: Block)
      reads this`frees
    {
      forall c :: Live(l.blocks, frees, c) && c.page == b.page ==> c == b
    }

    /** Take back a block that was handed out; an emptied page is reset, or dropped at the end, together with
        the empty ones before it. */
    method Free(b: Block)
      requires Valid() && Live(l.blocks, frees, b)
      modifies this, pages, repr
      ensures Valid() && repr == old(repr) && (old(Safe()) ==> Safe())
      ensures forall c :: Live(l.blocks, frees, c) <==> c != b && Live(l.blocks, old(frees), c)
      ensures if b.page + 1 == old(size) && old(OnlyOne(b))
              then size <= b.page && (size == 0 || !Empty(l.blocks, frees, size - 1)) else size == old(size)
      ensures if size == old(size) then alloc == old(alloc) && lastFree == b.page
              else alloc == lastFree == if size == 0 then 0 else size - 1
      ensures forall k :: size <= k < old(size) && k != b.page ==> Empty(l.blocks, old(frees), k)
      ensures forall k :: 0 <= k < size && k != b.page ==> frees[k] == old(frees)[k]
      ensures b.page < size ==>
                frees[b.page] == if Empty(l.blocks, old(frees)[b.page := [b.i] + old(frees)[b.page]], b.page)
                                 then Tail(0, BlocksOf(l.blocks, b.page)) else [b.i] + old(frees)[b.page]
    {
      hide Valid;
      hide Live;
      InRange(b);
      var i := FindPage(Address(b), b);
      GiveBack(b);
      ghost var mid := frees;
      LiveAfterGive(l.blocks, old(frees), mid, b);
      var emptied := Emptied(i);
      OnlyOneGiven(l.blocks, old(frees), mid, b);
      if emptied {
        if i + 1 == size {
          FreeEmptyPages();
          LiveAfterDrop(l.blocks, mid, size);
          forall k | size <= k < |mid| && k != b.page ensures Empty(l.blocks, old(frees), k) {
            assert Empty(l.blocks, mid, k) && mid[k] == old(frees)[k];
          }
        } else {
          ClearPage(i);
          LiveAfterClear(l.blocks, mid, i);
        }
      }
    }

    lemma InRange(b: Block)
      requires Valid() && Live(l.blocks, frees, b)
      ensures b.page < size == |frees| && b.i < BlocksOf(l.blocks, b.page)
    {
    }

    method Emptied(k: nat) returns (e: bool)
      requires Valid() && k < size
      ensures size == |frees| && (e <==> Empty(l.blocks, frees, k))
    {
      assert Paged(k);
      e := pages[k].used == 0;
      if e {
        AllFree(pages[k]);
      } else {
        SomeTaken(pages[k]);
      }
    }

    /** Sort a page's free list unless it is flagged as sorted. */
    method SortPage(k: nat)
      requires Valid() && k < size && pages[k] != null
      modifies this`frees, repr
      ensures Valid() && |frees| == |old(frees)| && SortedVersion(frees[k], old(frees)[k])
      ensures Ascending(frees[k]) && frees == old(frees)[k := frees[k]]
      ensures PageSafe(k) <==> if old(pages[k].sorted) then old(PageSafe(k))
                               else !OnlyLastFree(BlocksOf(l.blocks, k), old(frees)[k])
      ensures forall j :: 0 <= j < size && j != k ==>
                pages[j] != null && unchanged(pages[j]) && unchanged(pages[j].next)
      ensures pages[k].used == old(pages[k].used)
    {
      hide SortedVersion;
      hide OnlyLastFree;
      hide Denotes;
      hide OneNotLast;
      assert Paged(k);
      Separate(k);
      EnsureSorted(pages[k]);
      frees := frees[k := pages[k].free];
      PageChanged(k);
    }

    /** Walking leaves page k with ONE off its last block: if it sorts the page, that depends on which blocks
        are free, else on how the list was before. */
    ghost predicate StaysSafe(k: nat)
      reads this, pages, repr
      requires Valid() && k < size
    {
      assert Paged(k);
      if pages[k].used != 0 && !pages[k].sorted then !OnlyLastFree(BlocksOf(l.blocks, k), frees[k]) else PageSafe(k)
    }

    lemma SizeIs()
      requires Valid()
      ensures size == |frees| && size <= MAX_PAGES
    {
    }

    /** Blocks of the only page come back while block 0 is handed out. */
    method GiveHigher(i: nat, ghost free: seq<nat>)
      requires Valid() && l.blocks == 4 && frees == [free] && 0 < i < 4 && i !in free && 0 !in free
      modifies this, pages, repr
      ensures Valid() && repr == old(repr) && frees == [[i] + free]
    {
      assert BlocksOf(4, 0) == 4 && 0 !in frees[0 := [i] + frees[0]][0];
      assert Live(4, frees, Block(0, 0)) && !Empty(4, frees[0 := [i] + frees[0]], 0);
      hide Empty, BlocksOf;
      Free(Block(0, i));
      assert Live(4, frees, Block(0, 0));
    }

    /** Free blocks out of order, of which only the last stands at the end. */
    lemma CornerAt0()
      requires Valid() && l.blocks == 4 && frees == [[3, 1]]
      ensures size == 1 && !StaysSafe(0) && Live(4, frees, Block(0, 0))
    {
      assert BlocksOf(4, 0) == 4 && Paged(0);
    }

    lemma UnsafeEscapes()
      requires Valid() && l.blocks == 4 && Live(4, frees, Block(0, 0)) && (size > 0 ==> !PageSafe(0))
      ensures size > 0 && pages[0] != null && !Safe()
      ensures Escapes(pages[0].next[..], pages[0].first, |frees[0]|)
    {
      assert Paged(0);
      EscapesExactly(pages[0].next[..], pages[0].first, pages[0].free, |frees[0]|);
    }

    /** Visit one page. */
    method WalkOne(k: nat) returns (runs: seq<Run>)
      requires Valid() && k < size && pages[k] != null
      modifies this`frees, repr
      ensures Valid() && |frees| == |old(frees)|
      ensures frees == old(frees)[k := frees[k]]
      ensures frees[k] == old(frees)[k] || SortedVersion(frees[k], old(frees)[k])
      ensures SeesLive(runs, l.blocks, old(frees), k)
      ensures PageSafe(k) <==> old(StaysSafe(k))
      ensures forall j :: 0 <= j < size && j != k ==>
                pages[j] != null && unchanged(pages[j]) && unchanged(pages[j].next)
    {
      hide SeesLive, SortedVersion, OnlyLastFree, Denotes, OneNotLast, Ascending, Distinct, PageBytes;
      hide BlocksOf, Stretches;
      assert Paged(k);
      Separate(k);
      runs := [];
      if pages[k].used != 0 {
        SortPage(k);
        assert Paged(k);
        runs := WalkPage(pages[k]);
        SeesSorted(runs, l.blocks, frees, old(frees), k);
      } else {
        NothingLive(k);
      }
    }

    lemma NothingLive(k: nat)
      requires Valid() && k < size && pages[k] != null && pages[k].used == 0
      ensures SeesLive([], l.blocks, frees, k)
    {
      assert Paged(k);
      AllFree(pages[k]);
    }

    /** Visit all pages in order.  Per page the callback sees exactly the live blocks, ascending.
        The free blocks stay the same.  Afterwards allocating from a page is safe exactly when StaysSafe said so. */
    method Walk() returns (out: seq<seq<Run>>)
      requires Valid()
      modifies this, pages, repr
      ensures Valid() && repr == old(repr) && |out| == old(size)
      ensures forall k :: 0 <= k < |out| ==> SeesLive(out[k], l.blocks, old(frees), k)
      ensures forall c :: Live(l.blocks, frees, c) <==> Live(l.blocks, old(frees), c)
      ensures size <= old(size) && forall k: nat :: k < size ==> (PageSafe(k) <==> old(StaysSafe(k)))
      ensures size == 0 || !Empty(l.blocks, frees, size - 1)
      ensures size == old(size) || Empty(l.blocks, old(frees), old(size) - 1)
    {
      hide SeesLive;
      hide Live;
      hide SameFree;
      hide OnlyLastFree;
      out := [];
      if size == 0 {
        return;
      }
      SameFreeRefl(frees);
      forall j | 0 <= j < size ensures Paged(j) && pages[j] != null {
        assert Paged(j);
      }
      for k := 0 to size
        invariant Valid() && |out| == k && size == old(size) && repr == old(repr)
        invariant forall j :: 0 <= j < size ==> old(Paged(j)) && pages[j] == old(pages[j]) && pages[j] != null
        invariant forall j :: k <= j < size ==>
                    frees[j] == old(frees)[j] && unchanged(pages[j]) && unchanged(pages[j].next)
        invariant forall j :: 0 <= j < k ==> SeesLive(out[j], l.blocks, old(frees), j)
        invariant SameFree(frees, old(frees))
        invariant forall j: nat :: j < k ==> (PageSafe(j) <==> old(StaysSafe(j)))
      {
        ghost var was := frees;
        assert StaysSafe(k) == old(StaysSafe(k));
        var runs := WalkOne(k);
        SeesSame(runs, l.blocks, was, old(frees), k);
        SameFreeStep(was, frees, old(frees), k);
        out := out + [runs];
      }
      ghost var mid := frees;
      SameFreeLive(l.blocks, mid, old(frees));
      assert Paged(size - 1);
      if pages[size - 1].used == 0 {
        AllFree(pages[size - 1]);
        SameFreeEmpty(l.blocks, mid, old(frees), size - 1);
        FreeEmptyPages();
        LiveAfterDrop(l.blocks, mid, size);
      } else {
        SomeTaken(pages[size - 1]);
      }
    }
  }

  lemma HandedFirst(blocks: nat, was: seq<seq<nat>>, now: seq<seq<nat>>, b: Block, free: seq<nat>)
    requires Handed(blocks, was, now, b)
    requires (was == [free] && b.page != 1) || (was == [] && free == Tail(0, BlocksOf(blocks, 0)))
    ensures now == [free[1..]]
  {
  }

  /** Take a block from an allocator with at most one page, that is not full. */
  method TakeFirst(a: Allocator, at: nat, ghost free: seq<nat>)
    requires a.Valid() && a.Safe() && PageBytes(a.l, 0) < WORD && free != []
    requires a.frees == [free] || (a.frees == [] && free == Tail(0, BlocksOf(a.l.blocks, 0)) && a.Roomy(at))
    modifies a, a.pages, a.repr
    ensures a.Valid() && a.Safe() && a.frees == [free[1..]]
    ensures fresh(a.repr - old(a.repr))
  {
    IncExact(a.l, a.l.blocks, 0, PAGE_HEADER);
    ghost var was := a.frees;
    a.SizeIs();
    hide Exact, PageBytes, BlocksOf, IncLayout, Live, RejectsPage, Handed, Tail;
    hide Allocator.Valid, Allocator.Safe, Allocator.Roomy;
    assert a.frees == [free] ==> a.frees[0] == free;
    var r := a.Alloc(at);
    HandedFirst(a.l.blocks, was, a.frees, r.value, free);
  }

  lemma FourBlocks(blockSize: nat)
    requires 8 <= blockSize < 0x4000_0000
    ensures LastBlockFits(blockSize, 4) && InitLayout(blockSize, 4).blocks == 4
    ensures PageBytes(InitLayout(blockSize, 4), 0) == 4 * blockSize
  {
    assert BitAnd(4, 3) == 0;
  }

  /** Four blocks are handed out, the second and the last come back, and the allocator is walked: now the last
      block carries ONE, and handing out both free blocks would write behind the page. */
  method CornerReached(blockSize: nat, at: nat) returns (a: Allocator)
    requires 8 <= blockSize < 0x4000_0000 && at + 4 * blockSize <= ADDRESSES
    ensures fresh(a) && a.Valid() && a.size > 0 && !a.Safe()
    ensures a.pages[0] != null && Escapes(a.pages[0].next[..], a.pages[0].first, |a.frees[0]|)
  {
    FourBlocks(blockSize);
    a := new Allocator(blockSize, 4);
    assert BlocksOf(4, 0) == 4 && Tail(0, 4) == [0, 1, 2, 3];
    hide PageBytes, BlocksOf, Live, Exact;
    hide Allocator.Valid, Allocator.Safe, Allocator.PageSafe, Allocator.StaysSafe;
    TakeFirst(a, at, [0, 1, 2, 3]);
    TakeFirst(a, at, [1, 2, 3]);
    TakeFirst(a, at, [2, 3]);
    TakeFirst(a, at, [3]);
    a.GiveHigher(1, []);
    assert [1] + [] == [1];
    a.GiveHigher(3, [1]);
    assert [3] + [1] == [3, 1];
    a.CornerAt0();
    var out := a.Walk();
    a.UnsafeEscapes();
  }

  /** A page is empty once its only live block is given back. */
  lemma OnlyOneGiven(blocks: nat, was: seq<seq<nat>>, now: seq<seq<nat>>, b: Block)
    requires b.page < |was| == |now| && forall c :: Live(blocks, now, c) <==> c != b && Live(blocks, was, c)
    ensures Empty(blocks, now, b.page) <==> forall c :: Live(blocks, was, c) && c.page == b.page ==> c == b
  {
    forall i | 0 <= i < BlocksOf(blocks, b.page)
      ensures i in now[b.page] <==> !(Live(blocks, was, Block(b.page, i)) && Block(b.page, i) != b)
    {
      assert Live(blocks, now, Block(b.page, i)) <==> i !in now[b.page];
    }
    hide BlocksOf;
  }

  /** Two stretches of memory have no byte in common. */
  predicate DisjointRanges(a: nat, m: nat, b: nat, n: nat) {
    a + m <= b || b + n <= a
  }

  /** Block b is the first free one of its page, which may be new, and is taken off the list. */
  ghost predicate Handed(blocks: nat, was: seq<seq<nat>>, now: seq<seq<nat>>, b: Block) {
    var mid := if b.page == |was| then was + [Tail(0, BlocksOf(blocks, b.page))] else was;
    b.page < |mid| && mid[b.page] != [] && mid[b.page][0] == b.i && now == mid[b.page := mid[b.page][1..]]
  }

  /** The address test with its unsigned difference: from the first block on, no farther than the last. */
  lemma InRangeExactly(base: nat, bytes: nat, blockSize: nat, ptr: nat)
    requires 0 < blockSize <= bytes && base + bytes <= ADDRESSES
    requires ptr + blockSize <= ADDRESSES
    requires DisjointRanges(base, bytes, ptr, blockSize) || base <= ptr <= base + bytes - blockSize
    ensures (ptr - base) % ADDRESSES <= bytes - blockSize <==> base <= ptr <= base + bytes - blockSize
  {
    if ptr < base {
      assert (ptr - base) % ADDRESSES == ptr - base + ADDRESSES;
    }
  }

  /** For block i of page p, whose first block is at address q, and page k at address b. */
  lemma AddressTest(l: Layout, k: nat, b: nat, p: nat, q: nat, i: nat)
    requires Exact(l, l.blocks) && PageBytes(l, k) < WORD && i < BlocksOf(l.blocks, p)
    requires b + PageBytes(l, k) <= ADDRESSES && q + PageBytes(l, p) <= ADDRESSES
    requires if k == p then b == q else DisjointRanges(b, PageBytes(l, k), q, PageBytes(l, p))
    ensures (q + i * l.blockSize - b) % ADDRESSES <= IncLayout(l, k).offset <==> k == p
  {
    LastBlockAt(l, k);
    PageBytesAre(l, p);
    BlockInside(l.blockSize, i, BlocksOf(l.blocks, p));
    var m, n, size, d := PageBytes(l, k), PageBytes(l, p), l.blockSize, i * l.blockSize;
    hide PageBytes, BlocksOf, IncLayout, Exact;
    InRangeExactly(b, m, size, q + d);
  }

  /** The last block of page k ends where the page does. */
  lemma LastBlockAt(l: Layout, k: nat)
    requires Exact(l, l.blocks) && PageBytes(l, k) < WORD
    ensures 0 < l.blockSize <= PageBytes(l, k) && IncLayout(l, k).offset == PageBytes(l, k) - l.blockSize
  {
    IncExact(l, l.blocks, k, 0);
    PageBytesAre(l, k);
    MulAtLeast(l.blocks, Pow2(k));
    MulLess(l.blockSize, BlocksOf(l.blocks, k));
    MulAtLeast(l.blockSize, BlocksOf(l.blocks, k));
  }

  lemma PageBytesAre(l: Layout, k: nat)
    ensures PageBytes(l, k) == l.blockSize * BlocksOf(l.blocks, k)
  {
    MulAssoc(l.blockSize, l.blocks, Pow2(k));
  }

  lemma PlacesApart(blockSize: nat, i: nat, j: nat)
    requires i != j
    ensures i * blockSize + blockSize <= j * blockSize || j * blockSize + blockSize <= i * blockSize
  {
    if i < j {
      BlockInside(blockSize, i, j);
    } else {
      BlockInside(blockSize, j, i);
    }
  }

  lemma BlockInside(blockSize: nat, i: nat, blocks: nat)
    requires i < blocks
    ensures i * blockSize + blockSize <= blockSize * blocks
  {
    MulMono(i + 1, blocks, blockSize, blockSize);
  }

  lemma TwiceThePage(l: Layout, k: nat)
    requires k > 0
    ensures BlocksOf(l.blocks, k) == 2 * BlocksOf(l.blocks, k - 1) && PageBytes(l, k) == 2 * PageBytes(l, k - 1)
  {
    var n, p := l.blocks, Pow2(k - 1);
    assert Pow2(k) == 2 * p;
    assert n * (2 * p) == 2 * (n * p);
    PageBytesAre(l, k);
    PageBytesAre(l, k - 1);
    assert l.blockSize * (2 * (n * p)) == 2 * (l.blockSize * (n * p));
  }

  /** One step back from the layout of page k is the layout of page k - 1. */
  lemma HalfLayout(l: Layout, k: nat)
    requires k > 0 && Exact(l, l.blocks) && PageBytes(l, k) < WORD
    ensures PageBytes(l, k - 1) < WORD && DecLayout(IncLayout(l, k), 1) == IncLayout(l, k - 1)
  {
    TwiceThePage(l, k);
    IncExact(l, l.blocks, k, 0);
    IncExact(l, l.blocks, k - 1, 0);
    var a, b := IncLayout(l, k - 1), IncLayout(l, k);
    Total(a, BlocksOf(l.blocks, k - 1));
    Total(b, BlocksOf(l.blocks, k));
    PageBytesAre(l, k);
    PageBytesAre(l, k - 1);
    var total := a.offset + a.blockSize;
    assert a.blockSize == b.blockSize && a.inverse == b.inverse && a.offset < WORD && 2 * total < WORD;
    assert b.blocks == 2 * a.blocks && b.offset + b.blockSize == 2 * total;
    hide PageBytes, BlocksOf, IncLayout, Exact;
    Halved(a, b);
  }

  lemma Halved(a: Layout, b: Layout)
    requires a.blockSize == b.blockSize && a.inverse == b.inverse && a.offset < WORD
    requires b.blocks == 2 * a.blocks && b.offset + b.blockSize == 2 * (a.offset + a.blockSize) < WORD
    ensures DecLayout(b, 1) == a
  {
    var total := a.offset + a.blockSize;
    WrapSmall(2 * total);
    WrapSmall(a.offset);
    assert Shr(2 * total, 1) == Shr(total, 0) == total && Shr(2 * a.blocks, 1) == Shr(a.blocks, 0) == a.blocks;
  }

  /** The callback sees, in ascending order and once each, exactly the live blocks of page k. */
  ghost predicate SeesLive(runs: seq<Run>, blocks: nat, frees: seq<seq<nat>>, k: nat) {
    && Ascending(Seen(runs)) && Stretches(runs, BlocksOf(blocks, k))
    && (forall i :: i in Seen(runs) <==> Live(blocks, frees, Block(k, i)))
  }

  lemma SeesSorted(runs: seq<Run>, blocks: nat, now: seq<seq<nat>>, was: seq<seq<nat>>, k: nat)
    requires k < |now| == |was| && SortedVersion(now[k], was[k])
    requires Ascending(Seen(runs)) && Stretches(runs, BlocksOf(blocks, k))
    requires forall i :: i in Seen(runs) <==> 0 <= i < BlocksOf(blocks, k) && i !in now[k]
    ensures SeesLive(runs, blocks, was, k)
  {
    SameElements(now[k], was[k]);
  }

  lemma SeesSame(runs: seq<Run>, blocks: nat, was: seq<seq<nat>>, now: seq<seq<nat>>, k: nat)
    requires SeesLive(runs, blocks, was, k) && k < |was| == |now| && was[k] == now[k]
    ensures SeesLive(runs, blocks, now, k)
  {
    forall i ensures i in Seen(runs) <==> Live(blocks, now, Block(k, i)) {
      assert Live(blocks, now, Block(k, i)) <==> Live(blocks, was, Block(k, i));
    }
  }

  lemma SameFreeRefl(frees: seq<seq<nat>>)
    ensures SameFree(frees, frees)
  {
  }

  /** Page by page the same blocks are free. */
  ghost predicate SameFree(now: seq<seq<nat>>, was: seq<seq<nat>>) {
    |now| == |was| && forall k :: 0 <= k < |now| ==> Elements(now[k]) == Elements(was[k])
  }

  lemma SameFreeStep(mid: seq<seq<nat>>, now: seq<seq<nat>>, was: seq<seq<nat>>, k: nat)
    requires SameFree(mid, was) && k < |mid| == |now| && now == mid[k := now[k]]
    requires now[k] == mid[k] || SortedVersion(now[k], mid[k])
    ensures SameFree(now, was)
  {
  }

  lemma SameFreeLive(blocks: nat, now: seq<seq<nat>>, was: seq<seq<nat>>)
    requires SameFree(now, was)
    ensures forall c :: Live(blocks, now, c) <==> Live(blocks, was, c)
  {
    forall c: Block | c.page < |now| ensures c.i in now[c.page] <==> c.i in was[c.page] {
      assert c.i in Elements(now[c.page]) <==> c.i in Elements(was[c.page]);
    }
  }

  lemma SameFreeEmpty(blocks: nat, now: seq<seq<nat>>, was: seq<seq<nat>>, k: nat)
    requires SameFree(now, was) && k < |now|
    ensures Empty(blocks, now, k) <==> Empty(blocks, was, k)
  {
    forall i: nat ensures i in now[k] <==> i in was[k] {
      assert i in Elements(now[k]) <==> i in Elements(was[k]);
    }
  }

  lemma SameElements(s: seq<nat>, t: seq<nat>)
    requires SortedVersion(s, t)
    ensures forall i :: i in s <==> i in t
  {
    forall i ensures i in s <==> i in t {
      assert i in s <==> i in Elements(s);
    }
  }

  /** A page counting no used blocks lists them all. */
  lemma AllFree(p: Page)
    requires p.Listed() && p.used == 0
    ensures forall i :: 0 <= i < p.blocks ==> i in p.free
  {
    DenotesInRange(p.next[..], p.first, p.free);
    FullList(p.free, p.blocks);
  }

  lemma SomeTaken(p: Page)
    requires p.Listed() && p.used != 0
    ensures exists i :: 0 <= i < p.blocks && i !in p.free
  {
    if forall i :: 0 <= i < p.blocks ==> i in p.free {
      SubsetSize(Below(p.blocks), Elements(p.free));
    }
  }

  lemma FullList(s: seq<nat>, n: nat)
    requires Distinct(s) && |s| == n && forall k :: 0 <= k < n ==> s[k] < n
    ensures forall i :: 0 <= i < n ==> i in s
  {
    forall i | 0 <= i < n ensures i in s {
      if i !in s {
        SubsetSize(Elements(s), Below(n) - {i});
      }
    }
  }

  lemma LiveAfterGive(blocks: nat, was: seq<seq<nat>>, now: seq<seq<nat>>, b: Block)
    requires Live(blocks, was, b) && now == was[b.page := [b.i] + was[b.page]]
    ensures forall c :: Live(blocks, now, c) <==> c != b && Live(blocks, was, c)
  {
  }

  lemma LiveAfterDrop(blocks: nat, was: seq<seq<nat>>, size: nat)
    requires size <= |was| && forall k :: size <= k < |was| ==> Empty(blocks, was, k)
    ensures forall c :: Live(blocks, was[..size], c) <==> Live(blocks, was, c)
  {
    forall c: Block | c.page >= size ensures !Live(blocks, was, c) {
      assert c.page < |was| ==> Empty(blocks, was, c.page);
    }
  }

  lemma LiveAfterClear(blocks: nat, was: seq<seq<nat>>, k: nat)
    requires k < |was| && Empty(blocks, was, k)
    ensures forall c :: Live(blocks, was[k := Tail(0, BlocksOf(blocks, k))], c) <==> Live(blocks, was, c)
  {
    var full := Tail(0, BlocksOf(blocks, k));
    forall i | 0 <= i < BlocksOf(blocks, k) ensures i in full {
      assert full[i] == i;
    }
  }

  /** Taking the head of a list makes just that block live. */
  lemma LiveAfterTake(blocks: nat, was: seq<seq<nat>>, mid: seq<seq<nat>>, now: seq<seq<nat>>, k: nat)
    requires k < |mid| && mid[k] != [] && Distinct(mid[k]) && now == mid[k := mid[k][1..]]
    requires forall i :: i in mid[k] ==> i < BlocksOf(blocks, k)
    requires mid == was || (k == |was| && mid == was + [Tail(0, BlocksOf(blocks, k))])
    ensures var b := Block(k, mid[k][0]);
            && Live(blocks, now, b) && !Live(blocks, was, b)
            && forall c :: Live(blocks, now, c) <==> c == b || Live(blocks, was, c)
  {
    var head := mid[k][0];
    assert mid[k] == [head] + mid[k][1..];
    assert head !in now[k];
    forall i ensures i in mid[k] <==> i == head || i in now[k] {
    }
    if mid != was {
      forall i | 0 <= i < BlocksOf(blocks, k) ensures i in mid[k] {
        assert mid[k][i] == i;
      }
    }
    forall c: Block | c.page != k ensures Live(blocks, now, c) <==> Live(blocks, was, c) {
      assert c.page < |now| <==> c.page < |was|;
      assert c.page < |now| ==> now[c.page] == was[c.page];
    }
    forall c: Block | c.page == k ensures Live(blocks, now, c) <==> c.i == head || Live(blocks, was, c) {
    }
  }
}
