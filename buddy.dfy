/** The buddy allocator of physical pages (kernel/mm/buddy.c).

    A pool covers `pool_mem_size` bytes starting at `pool_start_addr`, one
    `Page` record per 4 KiB page. A free or allocated block of order k is
    2^k pages long, starts at a page whose absolute address is a multiple of
    2^(k+12), and is described by the record of its first page (its head);
    the records of the other pages are stale. Free heads sit on the free
    list of their order. */
module Buddy {
  import opened Common

  const BUDDY_PAGE_SIZE: nat := 4096
  const BUDDY_PAGE_SIZE_ORDER: nat := 12
  /** Orders run from 0 to BUDDY_MAX_ORDER - 1. */
  const BUDDY_MAX_ORDER: nat := 14

  /** A page record: `order` and `allocated` of `struct page` (`allocated` is a Dafny keyword). */
  datatype Page = Page(order: nat, isAllocated: bool)

  /** Bytes in a block of order k. */
  function BlockBytes(k: nat): (r: nat)
    ensures r >= BUDDY_PAGE_SIZE
  {
    BUDDY_PAGE_SIZE * Pow2(k)
  }

  // ---------------------------------------------------------------------
  // Page records and addresses

  /** `page_to_virt`: the address of page record idx, in u64 arithmetic. */
  function PageToVirt(start: nat, idx: nat): nat
  {
    (idx * BUDDY_PAGE_SIZE + start) % U64_LIMIT
  }

  /** `virt_to_page`: the page record holding addr, in u64 arithmetic. */
  function VirtToPage(start: nat, addr: nat): nat
  {
    ((addr - start) % U64_LIMIT) / BUDDY_PAGE_SIZE
  }

  /** The page record of a page's own address is that page. */
  lemma VirtOfPage(start: nat, n: nat, idx: nat)
    requires idx < n && start + n * BUDDY_PAGE_SIZE < U64_LIMIT
    ensures start <= PageToVirt(start, idx) < start + n * BUDDY_PAGE_SIZE
    ensures VirtToPage(start, PageToVirt(start, idx)) == idx
  {
    var a := idx * BUDDY_PAGE_SIZE + start;
    assert a < U64_LIMIT;
    DivModUnique(a - start, BUDDY_PAGE_SIZE, idx, 0);
  }

  /** Any in-pool address lies in the page whose address is the address
      rounded down to the page; for page-aligned addresses that is the
      address itself. */
  lemma PageOfVirt(start: nat, n: nat, addr: nat)
    requires start <= addr < start + n * BUDDY_PAGE_SIZE < U64_LIMIT
    ensures VirtToPage(start, addr) < n
    ensures PageToVirt(start, VirtToPage(start, addr))
            == addr - (addr - start) % BUDDY_PAGE_SIZE
    ensures (addr - start) % BUDDY_PAGE_SIZE == 0 ==>
            PageToVirt(start, VirtToPage(start, addr)) == addr
  {
    var d := addr - start;
    var q, r := d / BUDDY_PAGE_SIZE, d % BUDDY_PAGE_SIZE;
    assert d == q * BUDDY_PAGE_SIZE + r;
  }

  // ---------------------------------------------------------------------
  // Buddies

  /** `get_buddy_chunk`: flip bit order+12 of the chunk's absolute address,
      answer None when the result falls outside the pool, otherwise the page
      record of that address. */
  function GetBuddyChunk(start: nat, memSize: nat, idx: nat, order: nat): Option<nat>
    requires order + BUDDY_PAGE_SIZE_ORDER < 64
  {
    var chunkAddr := PageToVirt(start, idx);
    var buddyAddr := FlipBit(chunkAddr, order + BUDDY_PAGE_SIZE_ORDER);
    if buddyAddr < start || buddyAddr >= (start + memSize) % U64_LIMIT then None
    else Some(VirtToPage(start, buddyAddr))
  }

  /** The buddy described on page frames: frame s + idx with bit k flipped,
      kept only when that frame is one of the pool's n frames. */
  function BuddyIndex(s: nat, n: nat, idx: nat, k: nat): Option<nat>
  {
    var f := FlipBit(s + idx, k);
    if f < s || f >= s + n then None else Some(f - s)
  }

  lemma Pow2Twelve()
    ensures Pow2(BUDDY_PAGE_SIZE_ORDER) == BUDDY_PAGE_SIZE
  {
    assert Pow2(4) == 16;
    assert Pow2(8) == 256;
  }

  /** Flipping the bit of weight C*P of C*f + c, c < C, flips the bit of
      weight P of f. */
  lemma FlipScaled(f: nat, c: nat, C: nat, P: nat)
    requires C > 0 && P > 0 && c < C
    ensures FlipAt(C * f + c, C * P) == C * FlipAt(f, P) + c
  {
    var q, rem := f / P, f % P;
    ShiftedDiv(f, c, C, P, q, rem);
    assert C * (f + P) == C * f + C * P;
    assert C * (f - P) == C * f - C * P;
  }

  /** The address computation of get_buddy_chunk is the flip of bit k of the
      chunk's page frame number, whatever the offset of the pool start
      inside its page. */
  lemma GetBuddyChunkFrames(start: nat, n: nat, idx: nat, k: nat)
    requires idx < n && start + n * BUDDY_PAGE_SIZE < U64_LIMIT
    requires k + BUDDY_PAGE_SIZE_ORDER < 64
    ensures GetBuddyChunk(start, n * BUDDY_PAGE_SIZE, idx, k)
            == BuddyIndex(start / BUDDY_PAGE_SIZE, n, idx, k)
  {
    var s, c := start / BUDDY_PAGE_SIZE, start % BUDDY_PAGE_SIZE;
    var F := FlipBit(s + idx, k);
    FlipBitInvolution(s + idx, k);
    ChunkAddr(start, n, idx);
    FlipAddr(s + idx, c, k);
    var memSize := n * BUDDY_PAGE_SIZE;
    DivModUnique(start + memSize, U64_LIMIT, 0, start + memSize);
    FrameBounds(start, n, F);
    var buddyAddr := FlipBit(PageToVirt(start, idx), k + BUDDY_PAGE_SIZE_ORDER);
    assert buddyAddr == BUDDY_PAGE_SIZE * F + c;
    if s <= F < s + n {
      assert buddyAddr < start + memSize;
      FrameOfAddr(start, F, c);
    }
  }

  /** Comparing addresses inside pages is comparing their frames. */
  lemma FrameBounds(start: nat, n: nat, F: nat)
    ensures var s, c := start / BUDDY_PAGE_SIZE, start % BUDDY_PAGE_SIZE;
            (BUDDY_PAGE_SIZE * F + c < start <==> F < s) &&
            (BUDDY_PAGE_SIZE * F + c >= start + n * BUDDY_PAGE_SIZE <==> F >= s + n)
  {
    var s, c := start / 4096, start % 4096;
    assert start == 4096 * s + c;
  }

  lemma ChunkAddr(start: nat, n: nat, idx: nat)
    requires idx < n && start + n * BUDDY_PAGE_SIZE < U64_LIMIT
    ensures PageToVirt(start, idx)
            == BUDDY_PAGE_SIZE * (start / BUDDY_PAGE_SIZE + idx) + start % BUDDY_PAGE_SIZE
  {
  }

  lemma FlipAddr(f: nat, c: nat, k: nat)
    requires c < BUDDY_PAGE_SIZE
    ensures FlipBit(BUDDY_PAGE_SIZE * f + c, k + BUDDY_PAGE_SIZE_ORDER)
            == BUDDY_PAGE_SIZE * FlipBit(f, k) + c
  {
    Pow2Twelve();
    Pow2Add(k, BUDDY_PAGE_SIZE_ORDER);
    FlipBitIsFlipAt(f, k);
    FlipBitIsFlipAt(BUDDY_PAGE_SIZE * f + c, k + BUDDY_PAGE_SIZE_ORDER);
    FlipScaled(f, c, BUDDY_PAGE_SIZE, Pow2(k));
  }

  lemma FrameOfAddr(start: nat, F: nat, c: nat)
    requires c == start % BUDDY_PAGE_SIZE && start / BUDDY_PAGE_SIZE <= F
    requires BUDDY_PAGE_SIZE * F + c < U64_LIMIT
    ensures VirtToPage(start, BUDDY_PAGE_SIZE * F + c) == F - start / BUDDY_PAGE_SIZE
  {
    var s := start / BUDDY_PAGE_SIZE;
    var b := BUDDY_PAGE_SIZE * F + c;
    assert b - start == BUDDY_PAGE_SIZE * (F - s);
    DivModUnique(b - start, BUDDY_PAGE_SIZE, F - s, 0);
  }

  /** The buddy of the buddy, at the same order, is the chunk itself. */
  lemma BuddyOfBuddy(start: nat, n: nat, idx: nat, k: nat)
    requires idx < n && start + n * BUDDY_PAGE_SIZE < U64_LIMIT
    requires k + BUDDY_PAGE_SIZE_ORDER < 64
    ensures var b := GetBuddyChunk(start, n * BUDDY_PAGE_SIZE, idx, k);
            b.Some? ==> b.value < n && b.value != idx &&
                        GetBuddyChunk(start, n * BUDDY_PAGE_SIZE, b.value, k) == Some(idx)
  {
    var s := start / BUDDY_PAGE_SIZE;
    GetBuddyChunkFrames(start, n, idx, k);
    var b := GetBuddyChunk(start, n * BUDDY_PAGE_SIZE, idx, k);
    if b.Some? {
      FlipBitInvolution(s + idx, k);
      GetBuddyChunkFrames(start, n, b.value, k);
    }
  }

  // ---------------------------------------------------------------------
  // Free lists: `list_add` puts a node at the front, `list_del` unlinks it,
  // and `free_list.prev` is the last node.

  predicate NoDup(l: seq<nat>)
  {
    forall i, j :: 0 <= i < j < |l| ==> l[i] != l[j]
  }

  /** `list_del` of node x. */
  function Remove(l: seq<nat>, x: nat): seq<nat>
  {
    if l == [] then []
    else if l[0] == x then l[1..]
    else [l[0]] + Remove(l[1..], x)
  }

  lemma {:induction false} RemoveProps(l: seq<nat>, x: nat)
    requires NoDup(l)
    ensures NoDup(Remove(l, x))
    ensures forall y :: y in Remove(l, x) <==> y in l && y != x
    ensures |Remove(l, x)| == if x in l then |l| - 1 else |l|
  {
    if l != [] {
      assert NoDup(l[1..]) by {
        forall i, j | 0 <= i < j < |l[1..]| ensures l[1..][i] != l[1..][j] {
          assert l[1..][i] == l[i + 1] && l[1..][j] == l[j + 1];
        }
      }
      assert l[0] !in l[1..] by {
        forall j | 0 <= j < |l[1..]| ensures l[1..][j] != l[0] {
          assert l[1..][j] == l[j + 1];
        }
      }
      assert l == [l[0]] + l[1..];
      if l[0] != x {
        RemoveProps(l[1..], x);
        var r := Remove(l[1..], x);
        assert Remove(l, x) == [l[0]] + r;
        forall i, j | 0 <= i < j < |[l[0]] + r| ensures ([l[0]] + r)[i] != ([l[0]] + r)[j] {
          if i == 0 {
            assert ([l[0]] + r)[j] == r[j - 1];
            assert r[j - 1] in r;
          }
        }
      }
    }
  }

  lemma PrependNoDup(x: nat, l: seq<nat>)
    requires NoDup(l) && x !in l
    ensures NoDup([x] + l)
  {
    forall i, j | 0 <= i < j < |[x] + l| ensures ([x] + l)[i] != ([x] + l)[j] {
      assert ([x] + l)[j] == l[j - 1];
      if i > 0 { assert ([x] + l)[i] == l[i - 1]; }
    }
  }

  /** Free bytes on the lists: the sum over k of nr_free[k] * 4096 * 2^k. */
  function FreeBytes(nr: seq<int>): int
  {
    if nr == [] then 0
    else FreeBytes(nr[..|nr| - 1]) + nr[|nr| - 1] * BlockBytes(|nr| - 1)
  }

  /** Changing one counter by d changes the free bytes by d blocks of its order. */
  lemma {:induction false} FreeBytesUpdate(nr: seq<int>, k: nat, d: int)
    requires k < |nr|
    ensures FreeBytes(nr[k := nr[k] + d]) == FreeBytes(nr) + d * BlockBytes(k)
    decreases |nr|
  {
    var nr' := nr[k := nr[k] + d];
    var m := |nr| - 1;
    assert nr'[..m] == if k < m then nr[..m][k := nr[k] + d] else nr[..m];
    if k < m {
      FreeBytesUpdate(nr[..m], k, d);
    } else {
      assert (nr[k] + d) * BlockBytes(k) == nr[k] * BlockBytes(k) + d * BlockBytes(k);
    }
  }

  // ---------------------------------------------------------------------
  // Well-formedness of a pool, over the page records (`pages`), a ghost
  // map from each page to the head of the block holding it (`owner`), and
  // the free lists. s is the frame number of the pool start.

  /** h heads a block of its order that lies inside the pool, is aligned on
      its size in absolute frames, and owns all of its pages. */
  ghost predicate HeadOk(s: nat, pages: seq<Page>, owner: seq<nat>, h: nat)
    requires |owner| == |pages| && h < |pages|
  {
    var k := pages[h].order;
    k < BUDDY_MAX_ORDER && h + Pow2(k) <= |pages| && (s + h) % Pow2(k) == 0 &&
    forall j :: h <= j < h + Pow2(k) ==> owner[j] == h
  }

  /** Page i lies in the block of its owner, which is a head. */
  ghost predicate InBlock(pages: seq<Page>, owner: seq<nat>, i: nat)
    requires |owner| == |pages| && i < |pages|
  {
    owner[i] <= i && owner[owner[i]] == owner[i] && i < owner[i] + Pow2(pages[owner[i]].order)
  }

  /** The blocks tile the pool, and only heads may be marked allocated. */
  ghost predicate Tiled(s: nat, pages: seq<Page>, owner: seq<nat>)
  {
    |owner| == |pages| &&
    (forall i :: 0 <= i < |pages| ==> InBlock(pages, owner, i)) &&
    (forall h :: 0 <= h < |pages| && owner[h] == h ==> HeadOk(s, pages, owner, h)) &&
    (forall i :: 0 <= i < |pages| && owner[i] != i ==> !pages[i].isAllocated)
  }

  /** List k holds exactly the free heads of order k, each once. */
  ghost predicate ListsOk(pages: seq<Page>, owner: seq<nat>, lists: seq<seq<nat>>)
    requires |owner| == |pages|
  {
    |lists| == BUDDY_MAX_ORDER &&
    (forall k, x {:trigger x in lists[k]} :: 0 <= k < BUDDY_MAX_ORDER && x in lists[k] ==>
       x < |pages| && owner[x] == x && pages[x] == Page(k, false)) &&
    (forall k :: 0 <= k < BUDDY_MAX_ORDER ==> NoDup(lists[k])) &&
    (forall h :: 0 <= h < |pages| && owner[h] == h && !pages[h].isAllocated ==>
       pages[h].order < BUDDY_MAX_ORDER && h in lists[pages[h].order])
  }

  ghost predicate Inv(s: nat, pages: seq<Page>, owner: seq<nat>, lists: seq<seq<nat>>)
  {
    Tiled(s, pages, owner) && ListsOk(pages, owner, lists)
  }

  /** A sound layout on values: an owner per page, the invariant, and
      counters that match the lists. */
  ghost predicate Layout(s: nat, pages: seq<Page>, owner: seq<nat>, lists: seq<seq<nat>>, nr: seq<int>)
  {
    |owner| == |pages| && Counted(nr, lists) && Inv(s, pages, owner, lists)
  }

  /** The allocated blocks: head -> order. */
  function AllocatedBlocks(pages: seq<Page>): map<nat, nat>
  {
    map i: nat | i < |pages| && pages[i].isAllocated :: pages[i].order
  }

  /** Owner update: pages lo..hi-1 now belong to v. */
  function SetRange(owner: seq<nat>, lo: nat, hi: nat, v: nat): (r: seq<nat>)
    ensures |r| == |owner|
    ensures forall i | 0 <= i < |r| :: r[i] == if lo <= i < hi then v else owner[i]
  {
    seq(|owner|, i requires 0 <= i < |owner| => if lo <= i < hi then v else owner[i])
  }

  /** Two different blocks share no page. */
  lemma BlocksDisjoint(s: nat, pages: seq<Page>, owner: seq<nat>, g: nat, h: nat, j: nat)
    requires Tiled(s, pages, owner) && g < |pages| && h < |pages| && g != h
    requires owner[g] == g && owner[h] == h
    ensures !(g <= j < g + Pow2(pages[g].order) && h <= j < h + Pow2(pages[h].order))
  {
    assert HeadOk(s, pages, owner, g) && HeadOk(s, pages, owner, h);
  }

  // ---------------------------------------------------------------------
  // One step of split_page: free block h of order k >= 1 becomes its two
  // halves of order k-1; the upper half gets a head of its own, and both go
  // to the front of list k-1 (the upper one first).

  function SplitPages(pages: seq<Page>, h: nat, k: nat, half: nat): seq<Page>
    requires h < |pages| && h + half < |pages| && k >= 1
  {
    pages[h := Page(k - 1, false)][h + half := Page(k - 1, false)]
  }

  function SplitOwner(owner: seq<nat>, h: nat, half: nat): seq<nat>
  {
    SetRange(owner, h + half, h + 2 * half, h + half)
  }

  function SplitLists(lists: seq<seq<nat>>, h: nat, k: nat, half: nat): seq<seq<nat>>
    requires 1 <= k < |lists|
  {
    lists[k := Remove(lists[k], h)][k - 1 := [h + half, h] + lists[k - 1]]
  }

  /** The precondition shared by the split-step lemmas. */
  ghost predicate SplitPre(s: nat, pages: seq<Page>, owner: seq<nat>, h: nat, k: nat, half: nat)
  {
    Tiled(s, pages, owner) && h < |pages| && owner[h] == h &&
    pages[h] == Page(k, false) && k >= 1 && half == Pow2(k - 1) &&
    h + 2 * half <= |pages|
  }

  lemma SplitPreOf(s: nat, pages: seq<Page>, owner: seq<nat>, h: nat, k: nat)
    requires Tiled(s, pages, owner) && h < |pages| && owner[h] == h
    requires pages[h] == Page(k, false) && k >= 1
    ensures SplitPre(s, pages, owner, h, k, Pow2(k - 1))
  {
    assert HeadOk(s, pages, owner, h);
  }

  lemma SplitInBlock(s: nat, pages: seq<Page>, owner: seq<nat>, h: nat, k: nat, half: nat, i: nat)
    requires SplitPre(s, pages, owner, h, k, half) && i < |pages|
    ensures InBlock(SplitPages(pages, h, k, half), SplitOwner(owner, h, half), i)
  {
    assert HeadOk(s, pages, owner, h);
    assert InBlock(pages, owner, i);
    if !(h <= i < h + 2 * half) {
      assert HeadOk(s, pages, owner, owner[i]);
    }
  }

  lemma SplitHead(s: nat, pages: seq<Page>, owner: seq<nat>, h: nat, k: nat, half: nat, g: nat)
    requires SplitPre(s, pages, owner, h, k, half) && g < |pages|
    requires SplitOwner(owner, h, half)[g] == g
    ensures HeadOk(s, SplitPages(pages, h, k, half), SplitOwner(owner, h, half), g)
  {
    assert HeadOk(s, pages, owner, h);
    if g == h {
      AlignedWeaken(s + h, k - 1, k);
    } else if g == h + half {
      AlignedWeaken(s + h, k - 1, k);
      DivModUnique(half, half, 1, 0);
      AlignedAdd(s + h, half, half);
    } else {
      assert owner[g] == g;
      assert HeadOk(s, pages, owner, g);
    }
  }

  lemma SplitTiled(s: nat, pages: seq<Page>, owner: seq<nat>, h: nat, k: nat, half: nat)
    requires SplitPre(s, pages, owner, h, k, half)
    ensures Tiled(s, SplitPages(pages, h, k, half), SplitOwner(owner, h, half))
  {
    var pages', owner' := SplitPages(pages, h, k, half), SplitOwner(owner, h, half);
    forall i | 0 <= i < |pages'| ensures InBlock(pages', owner', i) {
      SplitInBlock(s, pages, owner, h, k, half, i);
    }
    forall g | 0 <= g < |pages'| && owner'[g] == g
      ensures HeadOk(s, pages', owner', g)
    {
      SplitHead(s, pages, owner, h, k, half, g);
    }
    assert HeadOk(s, pages, owner, h);
  }

  /** A node of list j is a free head of order j. */
  lemma Listed(pages: seq<Page>, owner: seq<nat>, lists: seq<seq<nat>>, j: nat, x: nat)
    requires |owner| == |pages| && ListsOk(pages, owner, lists)
    requires j < BUDDY_MAX_ORDER && x in lists[j]
    ensures x < |pages| && owner[x] == x && pages[x] == Page(j, false)
  {
  }

  /** What the free lists need to know about a split block h of order k:
      all of its pages belong to h. */
  ghost predicate SplitListsPre(pages: seq<Page>, owner: seq<nat>, h: nat, k: nat, half: nat)
  {
    |owner| == |pages| && 1 <= k < BUDDY_MAX_ORDER && half >= 1 &&
    h + 2 * half <= |pages| && owner[h] == h && pages[h] == Page(k, false) &&
    forall j :: h <= j < h + 2 * half ==> owner[j] == h
  }

  lemma SplitListed(pages: seq<Page>, owner: seq<nat>, lists: seq<seq<nat>>,
                    h: nat, k: nat, half: nat, j: nat, x: nat)
    requires SplitListsPre(pages, owner, h, k, half) && ListsOk(pages, owner, lists)
    requires j < BUDDY_MAX_ORDER && x in SplitLists(lists, h, k, half)[j]
    ensures var pages', owner' := SplitPages(pages, h, k, half), SplitOwner(owner, h, half);
            x < |pages'| && owner'[x] == x && pages'[x] == Page(j, false)
  {
    RemoveProps(lists[k], h);
    if j == k - 1 {
      if x != h && x != h + half {
        assert x in lists[k - 1];
        assert owner[x] == x;
      }
    } else {
      assert x in lists[j];
    }
  }

  lemma SplitNoDup(pages: seq<Page>, owner: seq<nat>, lists: seq<seq<nat>>,
                   h: nat, k: nat, half: nat, j: nat)
    requires SplitListsPre(pages, owner, h, k, half) && ListsOk(pages, owner, lists)
    requires j < BUDDY_MAX_ORDER
    ensures NoDup(SplitLists(lists, h, k, half)[j])
  {
    RemoveProps(lists[k], h);
    if j == k - 1 {
      assert owner[h + half] == h;
      assert h !in lists[k - 1] && h + half !in lists[k - 1];
      PrependNoDup(h, lists[k - 1]);
      PrependNoDup(h + half, [h] + lists[k - 1]);
      assert [h + half, h] + lists[k - 1] == [h + half] + ([h] + lists[k - 1]);
    }
  }

  lemma SplitComplete(pages: seq<Page>, owner: seq<nat>, lists: seq<seq<nat>>,
                      h: nat, k: nat, half: nat, g: nat)
    requires SplitListsPre(pages, owner, h, k, half) && ListsOk(pages, owner, lists)
    requires g < |pages| && SplitOwner(owner, h, half)[g] == g
    requires !SplitPages(pages, h, k, half)[g].isAllocated
    ensures var pages' := SplitPages(pages, h, k, half);
            pages'[g].order < BUDDY_MAX_ORDER && g in SplitLists(lists, h, k, half)[pages'[g].order]
  {
    if g != h && g != h + half {
      assert owner[g] == g;
      var kg := pages[g].order;
      assert g in lists[kg];
      if kg == k {
        RemoveProps(lists[k], h);
      }
    }
  }

  lemma SplitListsOk(pages: seq<Page>, owner: seq<nat>, lists: seq<seq<nat>>,
                     h: nat, k: nat, half: nat)
    requires SplitListsPre(pages, owner, h, k, half) && ListsOk(pages, owner, lists)
    ensures ListsOk(SplitPages(pages, h, k, half), SplitOwner(owner, h, half),
                    SplitLists(lists, h, k, half))
  {
    var pages', owner' := SplitPages(pages, h, k, half), SplitOwner(owner, h, half);
    var lists' := SplitLists(lists, h, k, half);
    forall j, x {:trigger x in lists'[j]} | 0 <= j < BUDDY_MAX_ORDER && x in lists'[j]
      ensures x < |pages'| && owner'[x] == x && pages'[x] == Page(j, false)
    {
      SplitListed(pages, owner, lists, h, k, half, j, x);
    }
    forall j | 0 <= j < BUDDY_MAX_ORDER ensures NoDup(lists'[j]) {
      SplitNoDup(pages, owner, lists, h, k, half, j);
    }
    forall g | 0 <= g < |pages'| && owner'[g] == g && !pages'[g].isAllocated
      ensures pages'[g].order < BUDDY_MAX_ORDER && g in lists'[pages'[g].order]
    {
      SplitComplete(pages, owner, lists, h, k, half, g);
    }
  }

  // ---------------------------------------------------------------------
  // One step of merge_page: free heads h and b, buddies of order k, become
  // one free block of order k+1 headed by the lower one, put at the front
  // of list k+1; the upper head's record is left stale.

  lemma Pow2Multiple(a: nat, b: nat)
    requires a <= b
    ensures Pow2(b) % Pow2(a) == 0
  {
    Pow2Add(a, b - a);
    DivModUnique(Pow2(b), Pow2(a), Pow2(b - a), 0);
  }

  /** In a tiled pool, the in-pool buddy frame of a head is itself a head:
      blocks are aligned on their size, so no larger block can straddle the
      pair, and no smaller one can start inside it off its boundary. */
  lemma BuddyIsHead(s: nat, pages: seq<Page>, owner: seq<nat>, h: nat, b: nat)
    requires Tiled(s, pages, owner) && h < |pages| && owner[h] == h
    requires b < |pages| && s + b == FlipBit(s + h, pages[h].order)
    ensures owner[b] == b
  {
    var k := pages[h].order;
    assert HeadOk(s, pages, owner, h);
    assert InBlock(pages, owner, b);
    var g := owner[b];
    assert HeadOk(s, pages, owner, g);
    var kg := pages[g].order;
    if kg > k {
      NoStraddle(s + h, s + b, s + g, k, kg);
    }
    assert kg <= k;
    FlipBitAligned(s + h, k);
    NestedAligned(s + b, s + g, kg, k);
  }

  /** A block of order kg > k, aligned on its size, that holds frame F holds
      F's buddy H as well. */
  lemma NoStraddle(H: nat, F: nat, G: nat, k: nat, kg: nat)
    requires H % Pow2(k) == 0 && F == FlipBit(H, k)
    requires kg > k && G % Pow2(kg) == 0 && G <= F < G + Pow2(kg)
    ensures G <= H < G + Pow2(kg)
  {
    FlipBitAligned(H, k);
    AlignedWeaken(G, k + 1, kg);
    var lo := if H < F then H else F;
    NotAbove(lo, G, Pow2(k + 1));
    Pow2Multiple(k + 1, kg);
    AlignedAdd(G, Pow2(kg), Pow2(k + 1));
    AlignedGap(lo, G + Pow2(kg), Pow2(k + 1));
  }

  /** A multiple of m below the next multiple of m after lo is at most lo. */
  lemma NotAbove(lo: int, G: int, m: int)
    requires m > 0 && lo % m == 0 && G % m == 0 && G < lo + m
    ensures G <= lo
  {
    if lo < G {
      AlignedGap(lo, G, m);
    }
  }

  /** A block of order kg <= k holding a 2^k-aligned frame F starts at F. */
  lemma NestedAligned(F: nat, G: nat, kg: nat, k: nat)
    requires kg <= k && F % Pow2(k) == 0 && G % Pow2(kg) == 0 && G <= F < G + Pow2(kg)
    ensures G == F
  {
    AlignedWeaken(F, kg, k);
    NotAbove(G, F, Pow2(kg));
  }

  function MergePages(pages: seq<Page>, lo: nat, k: nat): seq<Page>
    requires lo < |pages|
  {
    pages[lo := Page(k + 1, false)]
  }

  function MergeOwner(owner: seq<nat>, lo: nat, hi: nat, P: nat): seq<nat>
  {
    SetRange(owner, hi, hi + P, lo)
  }

  function MergeLists(lists: seq<seq<nat>>, h: nat, b: nat, lo: nat, k: nat): seq<seq<nat>>
    requires k + 1 < |lists|
  {
    lists[k := Remove(Remove(lists[k], h), b)][k + 1 := [lo] + lists[k + 1]]
  }

  /** The precondition shared by the merge-step lemmas. */
  ghost predicate MergePre(s: nat, pages: seq<Page>, owner: seq<nat>,
                           h: nat, b: nat, k: nat, P: nat, lo: nat, hi: nat)
  {
    Tiled(s, pages, owner) && h < |pages| && b < |pages| && h != b &&
    owner[h] == h && owner[b] == b &&
    pages[h] == Page(k, false) && pages[b] == Page(k, false) &&
    k + 1 < BUDDY_MAX_ORDER && P == Pow2(k) &&
    lo == (if h < b then h else b) && hi == (if h < b then b else h) &&
    hi == lo + P && (s + lo) % Pow2(k + 1) == 0
  }

  lemma MergePreOf(s: nat, pages: seq<Page>, owner: seq<nat>, h: nat, b: nat, k: nat)
    requires Tiled(s, pages, owner) && h < |pages| && owner[h] == h
    requires pages[h] == Page(k, false) && k + 1 < BUDDY_MAX_ORDER
    requires b < |pages| && s + b == FlipBit(s + h, k) && pages[b] == Page(k, false)
    ensures var lo, hi := (if h < b then h else b), (if h < b then b else h);
            MergePre(s, pages, owner, h, b, k, Pow2(k), lo, hi)
  {
    assert HeadOk(s, pages, owner, h);
    FlipBitAligned(s + h, k);
    BuddyIsHead(s, pages, owner, h, b);
  }

  lemma MergeInBlock(s: nat, pages: seq<Page>, owner: seq<nat>,
                     h: nat, b: nat, k: nat, P: nat, lo: nat, hi: nat, i: nat)
    requires MergePre(s, pages, owner, h, b, k, P, lo, hi) && i < |pages|
    ensures InBlock(MergePages(pages, lo, k), MergeOwner(owner, lo, hi, P), i)
  {
    assert HeadOk(s, pages, owner, lo) && HeadOk(s, pages, owner, hi);
    assert InBlock(pages, owner, i);
    if !(lo <= i < hi + P) {
      assert HeadOk(s, pages, owner, owner[i]);
    }
  }

  lemma MergeHead(s: nat, pages: seq<Page>, owner: seq<nat>,
                  h: nat, b: nat, k: nat, P: nat, lo: nat, hi: nat, g: nat)
    requires MergePre(s, pages, owner, h, b, k, P, lo, hi) && g < |pages|
    requires MergeOwner(owner, lo, hi, P)[g] == g
    ensures HeadOk(s, MergePages(pages, lo, k), MergeOwner(owner, lo, hi, P), g)
  {
    assert HeadOk(s, pages, owner, lo) && HeadOk(s, pages, owner, hi);
    if g != lo {
      assert owner[g] == g;
      assert HeadOk(s, pages, owner, g);
    }
  }

  lemma MergeTiled(s: nat, pages: seq<Page>, owner: seq<nat>,
                   h: nat, b: nat, k: nat, P: nat, lo: nat, hi: nat)
    requires MergePre(s, pages, owner, h, b, k, P, lo, hi)
    ensures Tiled(s, MergePages(pages, lo, k), MergeOwner(owner, lo, hi, P))
  {
    var pages', owner' := MergePages(pages, lo, k), MergeOwner(owner, lo, hi, P);
    assert HeadOk(s, pages, owner, hi);
    forall i | 0 <= i < |pages'| ensures InBlock(pages', owner', i) {
      MergeInBlock(s, pages, owner, h, b, k, P, lo, hi, i);
    }
    forall g | 0 <= g < |pages'| && owner'[g] == g
      ensures HeadOk(s, pages', owner', g)
    {
      MergeHead(s, pages, owner, h, b, k, P, lo, hi, g);
    }
  }

  /** What the free lists need to know about merging free heads h and b of
      order k: the upper block's pages all belong to it. */
  ghost predicate MergeListsPre(pages: seq<Page>, owner: seq<nat>,
                                h: nat, b: nat, k: nat, P: nat, lo: nat, hi: nat)
  {
    |owner| == |pages| && h < |pages| && b < |pages| && h != b &&
    owner[h] == h && owner[b] == b &&
    pages[h] == Page(k, false) && pages[b] == Page(k, false) &&
    k + 1 < BUDDY_MAX_ORDER && P >= 1 &&
    lo == (if h < b then h else b) && hi == (if h < b then b else h) &&
    hi == lo + P && hi + P <= |pages| &&
    forall j :: hi <= j < hi + P ==> owner[j] == hi
  }

  lemma MergeListed(pages: seq<Page>, owner: seq<nat>, lists: seq<seq<nat>>,
                    h: nat, b: nat, k: nat, P: nat, lo: nat, hi: nat, j: nat, x: nat)
    requires MergeListsPre(pages, owner, h, b, k, P, lo, hi) && ListsOk(pages, owner, lists)
    requires j < BUDDY_MAX_ORDER && x in MergeLists(lists, h, b, lo, k)[j]
    ensures var pages', owner' := MergePages(pages, lo, k), MergeOwner(owner, lo, hi, P);
            x < |pages'| && owner'[x] == x && pages'[x] == Page(j, false)
  {
    if !(j == k + 1 && x == lo) {
      if j == k {
        RemoveProps(lists[k], h);
        RemoveProps(Remove(lists[k], h), b);
        assert x in lists[k] && x != h && x != b;
      }
      assert x in lists[j];
      Listed(pages, owner, lists, j, x);
      assert x != lo && x != hi;
    }
  }

  lemma MergeNoDup(pages: seq<Page>, owner: seq<nat>, lists: seq<seq<nat>>,
                   h: nat, b: nat, k: nat, P: nat, lo: nat, hi: nat, j: nat)
    requires MergeListsPre(pages, owner, h, b, k, P, lo, hi) && ListsOk(pages, owner, lists)
    requires j < BUDDY_MAX_ORDER
    ensures NoDup(MergeLists(lists, h, b, lo, k)[j])
  {
    if j == k {
      RemoveProps(lists[k], h);
      RemoveProps(Remove(lists[k], h), b);
    } else if j == k + 1 {
      PrependNoDup(lo, lists[k + 1]);
    }
  }

  lemma MergeComplete(pages: seq<Page>, owner: seq<nat>, lists: seq<seq<nat>>,
                      h: nat, b: nat, k: nat, P: nat, lo: nat, hi: nat, g: nat)
    requires MergeListsPre(pages, owner, h, b, k, P, lo, hi) && ListsOk(pages, owner, lists)
    requires g < |pages| && MergeOwner(owner, lo, hi, P)[g] == g
    requires !MergePages(pages, lo, k)[g].isAllocated
    ensures var pages' := MergePages(pages, lo, k);
            pages'[g].order < BUDDY_MAX_ORDER &&
            g in MergeLists(lists, h, b, lo, k)[pages'[g].order]
  {
    if g != lo {
      assert !(hi <= g < hi + P);
      assert owner[g] == g && g != hi;
      var kg := pages[g].order;
      assert g in lists[kg];
      if kg == k {
        assert g != h && g != b;
        RemoveProps(lists[k], h);
        assert g in Remove(lists[k], h);
        RemoveProps(Remove(lists[k], h), b);
      }
    }
  }

  lemma MergeListsOk(pages: seq<Page>, owner: seq<nat>, lists: seq<seq<nat>>,
                     h: nat, b: nat, k: nat, P: nat, lo: nat, hi: nat)
    requires MergeListsPre(pages, owner, h, b, k, P, lo, hi) && ListsOk(pages, owner, lists)
    ensures ListsOk(MergePages(pages, lo, k), MergeOwner(owner, lo, hi, P),
                    MergeLists(lists, h, b, lo, k))
  {
    var pages', owner' := MergePages(pages, lo, k), MergeOwner(owner, lo, hi, P);
    var lists' := MergeLists(lists, h, b, lo, k);
    forall j, x {:trigger x in lists'[j]} | 0 <= j < BUDDY_MAX_ORDER && x in lists'[j]
      ensures x < |pages'| && owner'[x] == x && pages'[x] == Page(j, false)
    {
      MergeListed(pages, owner, lists, h, b, k, P, lo, hi, j, x);
    }
    forall j | 0 <= j < BUDDY_MAX_ORDER ensures NoDup(lists'[j]) {
      MergeNoDup(pages, owner, lists, h, b, k, P, lo, hi, j);
    }
    forall g | 0 <= g < |pages'| && owner'[g] == g && !pages'[g].isAllocated
      ensures pages'[g].order < BUDDY_MAX_ORDER && g in lists'[pages'[g].order]
    {
      MergeComplete(pages, owner, lists, h, b, k, P, lo, hi, g);
    }
  }

  // ---------------------------------------------------------------------
  // Taking a free block off its list (the end of buddy_get_pages) and
  // pushing a freed block onto its list (the start of buddy_free_pages).

  /** Rewriting the flag of a head keeps the tiling. */
  lemma FlagKeepsTiled(s: nat, pages: seq<Page>, owner: seq<nat>, x: nat, p: Page)
    requires Tiled(s, pages, owner) && x < |pages| && owner[x] == x
    requires p.order == pages[x].order
    ensures Tiled(s, pages[x := p], owner)
  {
    var pages' := pages[x := p];
    forall i | 0 <= i < |pages'| ensures InBlock(pages', owner, i) {
      assert InBlock(pages, owner, i);
    }
    forall h | 0 <= h < |pages'| && owner[h] == h ensures HeadOk(s, pages', owner, h) {
      assert HeadOk(s, pages, owner, h);
    }
  }

  /** Taking free head x off list k and marking it allocated keeps the lists
      exact. */
  lemma TakeListsOk(pages: seq<Page>, owner: seq<nat>, lists: seq<seq<nat>>, x: nat, k: nat)
    requires |owner| == |pages| && ListsOk(pages, owner, lists)
    requires k < BUDDY_MAX_ORDER && x in lists[k]
    ensures x < |pages| && owner[x] == x && pages[x] == Page(k, false)
    ensures ListsOk(pages[x := Page(k, true)], owner, lists[k := Remove(lists[k], x)])
  {
    Listed(pages, owner, lists, k, x);
    var pages', lists' := pages[x := Page(k, true)], lists[k := Remove(lists[k], x)];
    RemoveProps(lists[k], x);
    forall j, y {:trigger y in lists'[j]} | 0 <= j < BUDDY_MAX_ORDER && y in lists'[j]
      ensures y < |pages'| && owner[y] == y && pages'[y] == Page(j, false)
    {
      assert y in lists[j];
      Listed(pages, owner, lists, j, y);
      assert y != x;
    }
    forall j | 0 <= j < BUDDY_MAX_ORDER ensures NoDup(lists'[j]) {
    }
    forall h | 0 <= h < |pages'| && owner[h] == h && !pages'[h].isAllocated
      ensures pages'[h].order < BUDDY_MAX_ORDER && h in lists'[pages'[h].order]
    {
      assert h != x && h in lists[pages[h].order];
      if pages[h].order == k {
        assert h in Remove(lists[k], x);
      }
    }
  }

  lemma TakeKeepsInv(s: nat, pages: seq<Page>, owner: seq<nat>, lists: seq<seq<nat>>,
                     x: nat, k: nat)
    requires Inv(s, pages, owner, lists) && k < BUDDY_MAX_ORDER && x in lists[k]
    ensures x < |pages| && owner[x] == x && pages[x] == Page(k, false)
    ensures Inv(s, pages[x := Page(k, true)], owner, lists[k := Remove(lists[k], x)])
  {
    Listed(pages, owner, lists, k, x);
    FlagKeepsTiled(s, pages, owner, x, Page(k, true));
    TakeListsOk(pages, owner, lists, x, k);
  }

  /** Marking allocated head x free and pushing it on list k keeps the lists
      exact. */
  lemma PushListsOk(pages: seq<Page>, owner: seq<nat>, lists: seq<seq<nat>>, x: nat, k: nat)
    requires |owner| == |pages| && ListsOk(pages, owner, lists)
    requires x < |pages| && owner[x] == x && pages[x] == Page(k, true) && k < BUDDY_MAX_ORDER
    ensures ListsOk(pages[x := Page(k, false)], owner, lists[k := [x] + lists[k]])
  {
    var pages', lists' := pages[x := Page(k, false)], lists[k := [x] + lists[k]];
    assert lists'[k][0] == x;
    forall j, y {:trigger y in lists'[j]} | 0 <= j < BUDDY_MAX_ORDER && y in lists'[j]
      ensures y < |pages'| && owner[y] == y && pages'[y] == Page(j, false)
    {
      if !(j == k && y == x) {
        assert y in lists[j];
        Listed(pages, owner, lists, j, y);
      }
    }
    forall j | 0 <= j < BUDDY_MAX_ORDER ensures NoDup(lists'[j]) {
      if j == k {
        if x in lists[k] {
          Listed(pages, owner, lists, k, x);
        }
        PrependNoDup(x, lists[k]);
      }
    }
    forall h | 0 <= h < |pages'| && owner[h] == h && !pages'[h].isAllocated
      ensures pages'[h].order < BUDDY_MAX_ORDER && h in lists'[pages'[h].order]
    {
      if h != x {
        assert h in lists[pages[h].order];
      }
    }
  }

  lemma PushKeepsInv(s: nat, pages: seq<Page>, owner: seq<nat>, lists: seq<seq<nat>>,
                     x: nat, k: nat)
    requires Inv(s, pages, owner, lists) && x < |pages| && pages[x] == Page(k, true)
    ensures owner[x] == x && k < BUDDY_MAX_ORDER
    ensures Inv(s, pages[x := Page(k, false)], owner, lists[k := [x] + lists[k]])
  {
    assert owner[x] == x;
    assert HeadOk(s, pages, owner, x);
    FlagKeepsTiled(s, pages, owner, x, Page(k, false));
    PushListsOk(pages, owner, lists, x, k);
  }

  /** How one record write changes the allocated blocks. */
  lemma AllocatedAfterWrite(pages: seq<Page>, i: nat, p: Page)
    requires i < |pages|
    ensures AllocatedBlocks(pages[i := p])
            == if p.isAllocated then AllocatedBlocks(pages)[i := p.order]
               else AllocatedBlocks(pages) - {i}
  {
  }

  lemma FreeBytesZero(nr: seq<int>)
    requires forall k :: 0 <= k < |nr| ==> nr[k] == 0
    ensures FreeBytes(nr) == 0
  {
    if nr != [] {
      FreeBytesZero(nr[..|nr| - 1]);
    }
  }

  /** A split step leaves the free bytes unchanged: one block of order k
      out, two of order k-1 in. */
  lemma SplitFreeBytes(nr: seq<int>, k: nat)
    requires 1 <= k < |nr|
    ensures FreeBytes(nr[k := nr[k] - 1][k - 1 := nr[k - 1] + 2]) == FreeBytes(nr)
  {
    FreeBytesUpdate(nr, k, -1);
    var nr1 := nr[k := nr[k] - 1];
    FreeBytesUpdate(nr1, k - 1, 2);
    assert nr1[k - 1] == nr[k - 1];
  }

  /** A merge step leaves the free bytes unchanged: two blocks of order k
      out, one of order k+1 in. */
  lemma MergeFreeBytes(nr: seq<int>, k: nat)
    requires k + 1 < |nr|
    ensures FreeBytes(nr[k := nr[k] - 2][k + 1 := nr[k + 1] + 1]) == FreeBytes(nr)
  {
    FreeBytesUpdate(nr, k, -2);
    var nr1 := nr[k := nr[k] - 2];
    FreeBytesUpdate(nr1, k + 1, 1);
    assert nr1[k + 1] == nr[k + 1];
  }

  /** Each counter nr_free[k] is the length of list k. */
  ghost predicate Counted(nr: seq<int>, lists: seq<seq<nat>>)
  {
    |nr| == BUDDY_MAX_ORDER && |lists| == BUDDY_MAX_ORDER &&
    forall k :: 0 <= k < BUDDY_MAX_ORDER ==> nr[k] == |lists[k]|
  }

  lemma SplitCounted(lists: seq<seq<nat>>, nr: seq<int>, idx: nat, k: nat, half: nat)
    requires Counted(nr, lists) && 1 <= k < BUDDY_MAX_ORDER && NoDup(lists[k]) && idx in lists[k]
    ensures Counted(nr[k := nr[k] - 1][k - 1 := nr[k - 1] + 2], SplitLists(lists, idx, k, half))
  {
    RemoveProps(lists[k], idx);
  }

  lemma SplitAllocated(pages: seq<Page>, idx: nat, k: nat, half: nat)
    requires k >= 1 && idx + half < |pages| && half > 0
    requires !pages[idx].isAllocated && !pages[idx + half].isAllocated
    ensures AllocatedBlocks(SplitPages(pages, idx, k, half)) == AllocatedBlocks(pages)
  {
    AllocatedAfterWrite(pages, idx, Page(k - 1, false));
    AllocatedAfterWrite(pages[idx := Page(k - 1, false)], idx + half, Page(k - 1, false));
  }

  /** One split step, all together: the pool stays well formed, the counters
      keep matching the lists, and neither the free bytes nor the allocated
      blocks change. */
  lemma SplitStep(s: nat, pages: seq<Page>, owner: seq<nat>, lists: seq<seq<nat>>,
                  nr: seq<int>, idx: nat, k: nat)
    requires Inv(s, pages, owner, lists) && Counted(nr, lists)
    requires idx < |pages| && owner[idx] == idx && pages[idx] == Page(k, false) && k >= 1
    ensures idx + Pow2(k - 1) < |pages| && k < BUDDY_MAX_ORDER
    ensures var half := Pow2(k - 1);
            var pages' := SplitPages(pages, idx, k, half);
            var lists' := SplitLists(lists, idx, k, half);
            var nr' := nr[k := nr[k] - 1][k - 1 := nr[k - 1] + 2];
            Inv(s, pages', SplitOwner(owner, idx, half), lists') && Counted(nr', lists') &&
            FreeBytes(nr') == FreeBytes(nr) && AllocatedBlocks(pages') == AllocatedBlocks(pages)
  {
    var half := Pow2(k - 1);
    SplitPreOf(s, pages, owner, idx, k);
    SplitTiled(s, pages, owner, idx, k, half);
    assert HeadOk(s, pages, owner, idx);
    SplitListsOk(pages, owner, lists, idx, k, half);
    assert idx in lists[k];
    SplitCounted(lists, nr, idx, k, half);
    SplitFreeBytes(nr, k);
    assert owner[idx + half] == idx;
    SplitAllocated(pages, idx, k, half);
  }

  lemma MergeCounted(lists: seq<seq<nat>>, nr: seq<int>, h: nat, b: nat, lo: nat, k: nat)
    requires Counted(nr, lists) && k + 1 < BUDDY_MAX_ORDER && NoDup(lists[k])
    requires h in lists[k] && b in lists[k] && h != b
    ensures Counted(nr[k := nr[k] - 2][k + 1 := nr[k + 1] + 1], MergeLists(lists, h, b, lo, k))
  {
    RemoveProps(lists[k], h);
    RemoveProps(Remove(lists[k], h), b);
  }

  /** One merge step, all together: the pool stays well formed, the counters
      keep matching the lists, neither the free bytes nor the allocated
      blocks change, and the merged block covers the block at h. */
  lemma MergeStep(s: nat, pages: seq<Page>, owner: seq<nat>, lists: seq<seq<nat>>,
                  nr: seq<int>, h: nat, b: nat, k: nat)
    requires Inv(s, pages, owner, lists) && Counted(nr, lists)
    requires h < |pages| && owner[h] == h && pages[h] == Page(k, false)
    requires k + 1 < BUDDY_MAX_ORDER
    requires b < |pages| && s + b == FlipBit(s + h, k) && pages[b] == Page(k, false)
    ensures var lo, hi := (if h < b then h else b), (if h < b then b else h);
            var P := Pow2(k);
            var pages' := MergePages(pages, lo, k);
            var lists' := MergeLists(lists, h, b, lo, k);
            var nr' := nr[k := nr[k] - 2][k + 1 := nr[k + 1] + 1];
            hi == lo + P && owner[b] == b &&
            Inv(s, pages', MergeOwner(owner, lo, hi, P), lists') && Counted(nr', lists') &&
            FreeBytes(nr') == FreeBytes(nr) && AllocatedBlocks(pages') == AllocatedBlocks(pages) &&
            lo <= h && h + Pow2(k) <= lo + Pow2(k + 1)
  {
    var lo, hi := (if h < b then h else b), (if h < b then b else h);
    MergePreOf(s, pages, owner, h, b, k);
    MergeTiled(s, pages, owner, h, b, k, Pow2(k), lo, hi);
    assert HeadOk(s, pages, owner, hi);
    MergeListsOk(pages, owner, lists, h, b, k, Pow2(k), lo, hi);
    assert h in lists[k] && b in lists[k];
    MergeCounted(lists, nr, h, b, lo, k);
    MergeFreeBytes(nr, k);
    AllocatedAfterWrite(pages, lo, Page(k + 1, false));
  }

  /** Taking free head x of order k off its list and marking it allocated. */
  lemma TakeStep(s: nat, pages: seq<Page>, owner: seq<nat>, lists: seq<seq<nat>>,
                 nr: seq<int>, x: nat, k: nat)
    requires Inv(s, pages, owner, lists) && Counted(nr, lists)
    requires x < |pages| && owner[x] == x && pages[x] == Page(k, false)
    ensures k < BUDDY_MAX_ORDER
    ensures var pages', lists' := pages[x := Page(k, true)], lists[k := Remove(lists[k], x)];
            var nr' := nr[k := nr[k] - 1];
            Inv(s, pages', owner, lists') && Counted(nr', lists') &&
            FreeBytes(nr') == FreeBytes(nr) - BlockBytes(k) &&
            AllocatedBlocks(pages') == AllocatedBlocks(pages)[x := k] &&
            forall j :: 0 <= j < BUDDY_MAX_ORDER ==> x !in lists'[j]
  {
    assert x in lists[k];
    TakeKeepsInv(s, pages, owner, lists, x, k);
    RemoveProps(lists[k], x);
    FreeBytesUpdate(nr, k, -1);
    AllocatedAfterWrite(pages, x, Page(k, true));
  }

  /** Marking allocated head x of order k free and pushing it on its list. */
  lemma PushStep(s: nat, pages: seq<Page>, owner: seq<nat>, lists: seq<seq<nat>>,
                 nr: seq<int>, x: nat, k: nat)
    requires Inv(s, pages, owner, lists) && Counted(nr, lists)
    requires x < |pages| && pages[x] == Page(k, true)
    ensures owner[x] == x && k < BUDDY_MAX_ORDER
    ensures var pages', lists' := pages[x := Page(k, false)], lists[k := [x] + lists[k]];
            var nr' := nr[k := nr[k] + 1];
            Inv(s, pages', owner, lists') && Counted(nr', lists') &&
            FreeBytes(nr') == FreeBytes(nr) + BlockBytes(k) &&
            AllocatedBlocks(pages') == AllocatedBlocks(pages) - {x}
  {
    PushKeepsInv(s, pages, owner, lists, x, k);
    FreeBytesUpdate(nr, k, 1);
    AllocatedAfterWrite(pages, x, Page(k, false));
  }

  // ---------------------------------------------------------------------
  // Coalescing: every merge merge_page can make has been made.

  /** merge_page stops at the free block h: h has the top order, its buddy
      lies outside the pool, or the buddy's record is allocated or of
      another order. */
  predicate MergeStops(s: nat, pages: seq<Page>, h: nat)
    requires h < |pages|
  {
    var k := pages[h].order;
    k + 1 >= BUDDY_MAX_ORDER ||
    match BuddyIndex(s, |pages|, h, k)
    case None => true
    case Some(b) => pages[b].isAllocated || pages[b].order != k
  }

  /** No free block lies beside a free buddy of its own order below the top
      order. */
  ghost predicate Coalesced(s: nat, pages: seq<Page>, owner: seq<nat>)
    requires |owner| == |pages|
  {
    forall h | 0 <= h < |pages| && owner[h] == h && !pages[h].isAllocated :: MergeStops(s, pages, h)
  }

  /** Coalesced, except for the block at x and the blocks whose buddy is x. */
  ghost predicate CoalescedBut(s: nat, pages: seq<Page>, owner: seq<nat>, x: nat)
    requires |owner| == |pages|
  {
    forall h | 0 <= h < |pages| && owner[h] == h && !pages[h].isAllocated && h != x &&
               BuddyIndex(s, |pages|, h, pages[h].order) != Some(x) :: MergeStops(s, pages, h)
  }

  /** Freeing the block at x leaves all blocks but x and its buddy coalesced. */
  lemma PushCoalesced(s: nat, pages: seq<Page>, owner: seq<nat>, x: nat)
    requires |owner| == |pages| && x < |pages| && Coalesced(s, pages, owner)
    ensures CoalescedBut(s, pages[x := pages[x].(isAllocated := false)], owner, x)
  {
    var pages' := pages[x := pages[x].(isAllocated := false)];
    forall h | 0 <= h < |pages'| && owner[h] == h && !pages'[h].isAllocated && h != x &&
               BuddyIndex(s, |pages'|, h, pages'[h].order) != Some(x)
      ensures MergeStops(s, pages', h)
    {
      assert MergeStops(s, pages, h);
    }
  }

  /** Allocating the block at x leaves the pool coalesced. */
  lemma TakeCoalesced(s: nat, pages: seq<Page>, owner: seq<nat>, x: nat)
    requires |owner| == |pages| && x < |pages| && CoalescedBut(s, pages, owner, x)
    ensures Coalesced(s, pages[x := pages[x].(isAllocated := true)], owner)
  {
    var pages' := pages[x := pages[x].(isAllocated := true)];
    forall h | 0 <= h < |pages'| && owner[h] == h && !pages'[h].isAllocated
      ensures MergeStops(s, pages', h)
    {
      if BuddyIndex(s, |pages|, h, pages[h].order) != Some(x) {
        assert MergeStops(s, pages, h);
      }
    }
  }

  /** Splitting the free block at x keeps every block but x and its buddy
      coalesced: the new upper half is x's buddy, and no other block has
      it as a buddy of the same order. */
  lemma SplitCoalesced(s: nat, pages: seq<Page>, owner: seq<nat>, x: nat, k: nat, half: nat)
    requires SplitPre(s, pages, owner, x, k, half) && CoalescedBut(s, pages, owner, x)
    ensures CoalescedBut(s, SplitPages(pages, x, k, half), SplitOwner(owner, x, half), x)
  {
    var pages', owner' := SplitPages(pages, x, k, half), SplitOwner(owner, x, half);
    assert HeadOk(s, pages, owner, x);
    assert k - 1 + 1 == k;
    FlipUpperHalf(s + x, k - 1);
    forall h | 0 <= h < |pages'| && owner'[h] == h && !pages'[h].isAllocated && h != x &&
               BuddyIndex(s, |pages'|, h, pages'[h].order) != Some(x)
      ensures MergeStops(s, pages', h)
    {
      FlipBitInvolution(s + h, pages'[h].order);
      if h != x + half {
        assert owner[h] == h && pages'[h] == pages[h];
        assert MergeStops(s, pages, h);
      }
    }
  }

  /** Merging the free buddies at h and b into the block at lo keeps every
      block but lo and its buddy coalesced. */
  lemma MergeCoalesced(s: nat, pages: seq<Page>, owner: seq<nat>,
                       h: nat, b: nat, k: nat, P: nat, lo: nat, hi: nat)
    requires MergePre(s, pages, owner, h, b, k, P, lo, hi) && CoalescedBut(s, pages, owner, h)
    ensures CoalescedBut(s, MergePages(pages, lo, k), MergeOwner(owner, lo, hi, P), lo)
  {
    var pages', owner' := MergePages(pages, lo, k), MergeOwner(owner, lo, hi, P);
    FlipUpperHalf(s + lo, k);
    forall g | 0 <= g < |pages'| && owner'[g] == g && !pages'[g].isAllocated && g != lo &&
               BuddyIndex(s, |pages'|, g, pages'[g].order) != Some(lo)
      ensures MergeStops(s, pages', g)
    {
      FlipBitInvolution(s + g, pages'[g].order);
      assert owner[g] == g && pages'[g] == pages[g];
      if BuddyIndex(s, |pages|, g, pages[g].order) != Some(hi) {
        assert MergeStops(s, pages, g);
      }
    }
  }

  /** One split on values: the layout stays sound and counted, the free
      bytes and the allocated blocks are kept, and only the lower half and
      the blocks whose buddy it is may have a free buddy. */
  lemma SplitRoundKeeps(s: nat, pages: seq<Page>, owner: seq<nat>, lists: seq<seq<nat>>,
                        nr: seq<int>, idx: nat, k: nat)
    requires Inv(s, pages, owner, lists) && Counted(nr, lists) && |owner| == |pages|
    requires idx < |pages| && owner[idx] == idx && pages[idx] == Page(k, false) && k >= 1
    requires CoalescedBut(s, pages, owner, idx)
    ensures idx + Pow2(k - 1) < |pages| && k < BUDDY_MAX_ORDER
    ensures var half := Pow2(k - 1);
            var pages' := SplitPages(pages, idx, k, half);
            var owner' := SplitOwner(owner, idx, half);
            var lists' := SplitLists(lists, idx, k, half);
            var nr' := nr[k := nr[k] - 1][k - 1 := nr[k - 1] + 2];
            && Layout(s, pages', owner', lists', nr')
            && CoalescedBut(s, pages', owner', idx) && owner'[idx] == idx
            && FreeBytes(nr') == FreeBytes(nr) && AllocatedBlocks(pages') == AllocatedBlocks(pages)
  {
    SplitStep(s, pages, owner, lists, nr, idx, k);
    SplitPreOf(s, pages, owner, idx, k);
    SplitCoalesced(s, pages, owner, idx, k, Pow2(k - 1));
  }

  /** One merge round on values: the layout stays sound and counted, the
      free bytes and the allocated blocks are kept, and only the merged
      block and the blocks whose buddy it is may have a free buddy. */
  lemma MergeRoundKeeps(s: nat, pages: seq<Page>, owner: seq<nat>, lists: seq<seq<nat>>,
                        nr: seq<int>, h: nat, b: nat, k: nat)
    requires Inv(s, pages, owner, lists) && Counted(nr, lists) && |owner| == |pages|
    requires h < |pages| && owner[h] == h && pages[h] == Page(k, false)
    requires k + 1 < BUDDY_MAX_ORDER && CoalescedBut(s, pages, owner, h)
    requires b < |pages| && s + b == FlipBit(s + h, k) && pages[b] == Page(k, false)
    ensures var lo, hi := (if h < b then h else b), (if h < b then b else h);
            var pages' := MergePages(pages, lo, k);
            var owner' := MergeOwner(owner, lo, hi, Pow2(k));
            var lists' := MergeLists(lists, h, b, lo, k);
            var nr' := nr[k := nr[k] - 2][k + 1 := nr[k + 1] + 1];
            && Layout(s, pages', owner', lists', nr')
            && CoalescedBut(s, pages', owner', lo) && owner'[lo] == lo
            && FreeBytes(nr') == FreeBytes(nr) && AllocatedBlocks(pages') == AllocatedBlocks(pages)
            && lo <= h && h + Pow2(k) <= lo + Pow2(k + 1)
  {
    var lo, hi := (if h < b then h else b), (if h < b then b else h);
    MergeStep(s, pages, owner, lists, nr, h, b, k);
    MergePreOf(s, pages, owner, h, b, k);
    MergeCoalesced(s, pages, owner, h, b, k, Pow2(k), lo, hi);
  }

  /** Where merge_page stops, the pool is coalesced again. */
  lemma StopCoalesced(s: nat, pages: seq<Page>, owner: seq<nat>, x: nat)
    requires |owner| == |pages| && x < |pages| && CoalescedBut(s, pages, owner, x)
    requires MergeStops(s, pages, x)
    ensures Coalesced(s, pages, owner)
  {
    forall h | 0 <= h < |pages| && owner[h] == h && !pages[h].isAllocated
      ensures MergeStops(s, pages, h)
    {
      FlipBitInvolution(s + h, pages[h].order);
    }
  }

  // ---------------------------------------------------------------------
  // A coalesced pool is determined by its allocated blocks: its free
  // blocks are the largest aligned chunks of pages that no allocated block
  // covers, so two coalesced pools with the same allocated blocks have the
  // same free heads on the same lists.

  /** Page i lies inside one of the allocated blocks A (head -> order). */
  ghost predicate Covered(A: map<nat, nat>, i: nat)
  {
    exists a | a in A :: a <= i < a + Pow2(A[a])
  }

  /** The 2^m pages from c form a chunk aligned on its size in absolute
      frames, below the top order, inside the pool of n pages, with no page
      covered by an allocated block. */
  ghost predicate FreeChunk(s: nat, n: nat, A: map<nat, nat>, c: nat, m: nat)
  {
    m < BUDDY_MAX_ORDER && c + Pow2(m) <= n && (s + c) % Pow2(m) == 0 &&
    forall i | c <= i < c + Pow2(m) :: !Covered(A, i)
  }

  /** In a tiled pool a page is covered by an allocated block exactly when
      the block holding it is allocated. */
  lemma CoveredIff(s: nat, pages: seq<Page>, owner: seq<nat>, i: nat)
    requires Tiled(s, pages, owner) && i < |pages|
    ensures owner[i] < |pages|
    ensures Covered(AllocatedBlocks(pages), i) <==> pages[owner[i]].isAllocated
  {
    var A := AllocatedBlocks(pages);
    assert InBlock(pages, owner, i);
    if pages[owner[i]].isAllocated {
      assert owner[i] in A;
    }
    if Covered(A, i) {
      var a :| a in A && a <= i < a + Pow2(A[a]);
      assert pages[a].isAllocated;
      assert owner[a] == a;
      assert HeadOk(s, pages, owner, a);
    }
  }

  /** A block aligned on 2^kg that holds a frame C aligned on 2^m, m <= kg,
      holds the whole 2^m chunk from C. */
  lemma ChunkInside(G: nat, kg: nat, C: nat, m: nat)
    requires m <= kg && G % Pow2(kg) == 0 && C % Pow2(m) == 0 && G <= C < G + Pow2(kg)
    ensures C + Pow2(m) <= G + Pow2(kg)
  {
    AlignedWeaken(G, m, kg);
    Pow2Multiple(m, kg);
    AlignedAdd(G, Pow2(kg), Pow2(m));
    AlignedGap(C, G + Pow2(kg), Pow2(m));
  }

  /** A block of order kg <= m, aligned on its size, that holds the 2^m
      chunk from an aligned frame C is that chunk. */
  lemma BlockIsChunk(C: nat, m: nat, G: nat, kg: nat)
    requires kg <= m && C % Pow2(m) == 0 && G % Pow2(kg) == 0
    requires G <= C && C + Pow2(m) <= G + Pow2(kg)
    ensures G == C && kg == m
  {
    NestedAligned(C, G, kg, m);
    if kg < m {
      Pow2Monotone(kg + 1, m);
    }
  }

  /** Powers of two are distinct. */
  lemma Pow2Injective(a: nat, b: nat)
    requires Pow2(a) == Pow2(b)
    ensures a == b
  {
  }

  /** In a tiled, coalesced pool every free chunk lies inside one block.
      Otherwise its two halves would lie in different blocks; neither can
      be larger than a half (it would hold the other half too), so they
      are two free buddies of equal order below the top order, which
      merge_page would have merged. */
  lemma {:induction false} FreeChunkInBlock(s: nat, pages: seq<Page>, owner: seq<nat>, c: nat, m: nat)
    requires Tiled(s, pages, owner) && Coalesced(s, pages, owner)
    requires FreeChunk(s, |pages|, AllocatedBlocks(pages), c, m)
    ensures owner[c] <= c && c + Pow2(m) <= owner[c] + Pow2(pages[owner[c]].order)
    decreases m
  {
    assert InBlock(pages, owner, c);
    if m > 0 {
      FreeHalves(s, |pages|, AllocatedBlocks(pages), c, m);
      FreeChunkInBlock(s, pages, owner, c, m - 1);
      FreeChunkInBlock(s, pages, owner, c + Pow2(m - 1), m - 1);
      JoinHalves(s, pages, owner, c, m);
    }
  }

  /** Both halves of a free chunk are free chunks. */
  lemma FreeHalves(s: nat, n: nat, A: map<nat, nat>, c: nat, m: nat)
    requires FreeChunk(s, n, A, c, m) && m > 0
    ensures FreeChunk(s, n, A, c, m - 1) && FreeChunk(s, n, A, c + Pow2(m - 1), m - 1)
  {
    var half := Pow2(m - 1);
    AlignedWeaken(s + c, m - 1, m);
    assert half % half == 0;
    AlignedAdd(s + c, half, half);
  }

  /** The step of FreeChunkInBlock: when each half of a free chunk lies in
      one block, the whole chunk does. */
  lemma JoinHalves(s: nat, pages: seq<Page>, owner: seq<nat>, c: nat, m: nat)
    requires Tiled(s, pages, owner) && Coalesced(s, pages, owner) && m > 0
    requires FreeChunk(s, |pages|, AllocatedBlocks(pages), c, m)
    requires owner[c] <= c && c + Pow2(m - 1) <= owner[c] + Pow2(pages[owner[c]].order)
    requires var d := c + Pow2(m - 1);
             owner[d] <= d && d + Pow2(m - 1) <= owner[d] + Pow2(pages[owner[d]].order)
    ensures c + Pow2(m) <= owner[c] + Pow2(pages[owner[c]].order)
  {
    var d := c + Pow2(m - 1);
    assert InBlock(pages, owner, c) && InBlock(pages, owner, d);
    var gL, gR := owner[c], owner[d];
    assert HeadOk(s, pages, owner, gL) && HeadOk(s, pages, owner, gR);
    var kL, kR := pages[gL].order, pages[gR].order;
    HalvesInBlocks(s + c, m, s + gL, kL, s + gR, kR);
    if s + gR <= s + c && kR >= m {
      assert owner[c] == gR;
    } else if s + gL == s + c && kL == m - 1 && s + gR == s + d && kR == m - 1 {
      CoveredIff(s, pages, owner, c);
      CoveredIff(s, pages, owner, d);
      FreeBuddiesMerge(s, pages, owner, c, m);
    }
  }

  /** The two halves of a chunk of order m from the aligned frame C, held
      by blocks GL and GR aligned on their sizes: either GL holds the whole
      chunk, or GR holds C as well, or the blocks are exactly the halves. */
  lemma HalvesInBlocks(C: nat, m: nat, GL: nat, kL: nat, GR: nat, kR: nat)
    requires m > 0 && C % Pow2(m) == 0 && GL % Pow2(kL) == 0 && GR % Pow2(kR) == 0
    requires GL <= C && C + Pow2(m - 1) <= GL + Pow2(kL)
    requires GR <= C + Pow2(m - 1) && C + Pow2(m) <= GR + Pow2(kR)
    ensures C + Pow2(m) <= GL + Pow2(kL) || (GR <= C && kR >= m) ||
            (GL == C && kL == m - 1 && GR == C + Pow2(m - 1) && kR == m - 1)
  {
    var half := Pow2(m - 1);
    AlignedWeaken(C, m - 1, m);
    assert half % half == 0;
    AlignedAdd(C, half, half);
    if kL >= m {
      ChunkInside(GL, kL, C, m);
    } else if kR >= m {
      AlignedWeaken(GR, m, kR);
      NotAbove(C, GR, Pow2(m));
    } else {
      BlockIsChunk(C, m - 1, GL, kL);
      BlockIsChunk(C + half, m - 1, GR, kR);
    }
  }

  /** Two free heads of order m - 1 < BUDDY_MAX_ORDER - 1 forming one
      aligned chunk of order m leave the pool not coalesced. */
  lemma FreeBuddiesMerge(s: nat, pages: seq<Page>, owner: seq<nat>, c: nat, m: nat)
    requires |owner| == |pages| && 0 < m < BUDDY_MAX_ORDER
    requires c + Pow2(m) <= |pages| && (s + c) % Pow2(m) == 0
    requires owner[c] == c && pages[c] == Page(m - 1, false)
    requires owner[c + Pow2(m - 1)] == c + Pow2(m - 1) && pages[c + Pow2(m - 1)] == Page(m - 1, false)
    ensures !Coalesced(s, pages, owner)
  {
    var d := c + Pow2(m - 1);
    FlipUpperHalf(s + c, m - 1);
    FlipBitInvolution(s + d, m - 1);
    assert BuddyIndex(s, |pages|, c, m - 1) == Some(d);
    assert !MergeStops(s, pages, c);
  }

  /** Two tiled, coalesced layouts of one pool with the same allocated
      blocks have the same free heads, of the same orders. */
  lemma FreeHeadsDetermined(s: nat, pages1: seq<Page>, owner1: seq<nat>,
                            pages2: seq<Page>, owner2: seq<nat>, h: nat)
    requires Tiled(s, pages1, owner1) && Coalesced(s, pages1, owner1)
    requires Tiled(s, pages2, owner2) && Coalesced(s, pages2, owner2)
    requires |pages1| == |pages2| && AllocatedBlocks(pages1) == AllocatedBlocks(pages2)
    requires h < |pages1| && owner1[h] == h && !pages1[h].isAllocated
    ensures owner2[h] == h && pages2[h] == pages1[h]
  {
    var A, n, k := AllocatedBlocks(pages1), |pages1|, pages1[h].order;
    assert HeadOk(s, pages1, owner1, h);
    forall i | h <= i < h + Pow2(k)
      ensures !Covered(A, i)
    {
      CoveredIff(s, pages1, owner1, i);
    }
    FreeChunkInBlock(s, pages2, owner2, h, k);
    var g2 := owner2[h];
    CoveredIff(s, pages2, owner2, h);
    assert InBlock(pages2, owner2, h);
    assert HeadOk(s, pages2, owner2, g2);
    var k2 := pages2[g2].order;
    forall i | g2 <= i < g2 + Pow2(k2)
      ensures !Covered(A, i)
    {
      CoveredIff(s, pages2, owner2, i);
    }
    FreeChunkInBlock(s, pages1, owner1, g2, k2);
    var g1 := owner1[g2];
    assert InBlock(pages1, owner1, g2);
    assert HeadOk(s, pages1, owner1, g1);
    assert owner1[h] == g1;
    Pow2Injective(k, k2);
  }

  /** Two coalesced, well-formed pools over the same pages with the same
      allocated blocks hold the same blocks on each free list, whatever
      the order of the nodes. */
  lemma FreeListsDetermined(s: nat, pages1: seq<Page>, owner1: seq<nat>, lists1: seq<seq<nat>>,
                            pages2: seq<Page>, owner2: seq<nat>, lists2: seq<seq<nat>>)
    requires Inv(s, pages1, owner1, lists1) && Coalesced(s, pages1, owner1)
    requires Inv(s, pages2, owner2, lists2) && Coalesced(s, pages2, owner2)
    requires |pages1| == |pages2| && AllocatedBlocks(pages1) == AllocatedBlocks(pages2)
    ensures forall k, x :: 0 <= k < BUDDY_MAX_ORDER ==> (x in lists1[k] <==> x in lists2[k])
  {
    forall k, x | 0 <= k < BUDDY_MAX_ORDER
      ensures x in lists1[k] <==> x in lists2[k]
    {
      if x in lists1[k] {
        Listed(pages1, owner1, lists1, k, x);
        FreeHeadsDetermined(s, pages1, owner1, pages2, owner2, x);
      }
      if x in lists2[k] {
        Listed(pages2, owner2, lists2, k, x);
        FreeHeadsDetermined(s, pages2, owner2, pages1, owner1, x);
      }
    }
  }

  /** Adding a key that was absent and removing it again gives the map back. */
  lemma UpdateRemove(A: map<nat, nat>, x: nat, v: nat)
    requires x !in A
    ensures A[x := v] - {x} == A
  {
  }

  /** Record `order..` of lists is where buddy_get_pages takes a block from:
      list j is the first non-empty one at or above `order`, and idx is its
      last node. */
  ghost predicate TakenFrom(lists: seq<seq<nat>>, order: nat, j: nat, idx: nat)
  {
    order <= j < |lists| && lists[j] != [] && idx == lists[j][|lists[j]| - 1] &&
    forall i :: order <= i < j ==> lists[i] == []
  }

  /** Remainders modulo m can be taken before an addition. */
  lemma ModAdd(a: int, x: int, m: int)
    requires m > 0
    ensures (a % m + x) % m == (a + x) % m
  {
    var q := a / m;
    assert a == m * q + a % m;
    var r := (a % m + x) % m;
    var q' := (a % m + x) / m;
    assert a % m + x == m * q' + r;
    assert a + x == m * (q + q') + r;
    DivModUnique(a + x, m, q + q', r);
  }

  /** The allocated blocks of a pool under construction: pages lo..n-1 are
      still the allocated order-0 blocks init_buddy starts from. */
  function OrderZeroFrom(lo: nat, n: nat): (r: map<nat, nat>)
    ensures forall j :: j in r <==> lo <= j < n
    ensures forall j :: j in r ==> r[j] == 0
  {
    map j: nat | lo <= j < n && Between(lo, j, n) :: 0
  }

  predicate Between(lo: nat, j: nat, hi: nat)
  {
    lo <= j < hi
  }

  lemma OrderZeroFromNext(lo: nat, n: nat)
    requires lo < n
    ensures OrderZeroFrom(lo, n) - {lo} == OrderZeroFrom(lo + 1, n)
  {
  }

  /** The state init_buddy starts from is well formed: every page is an
      allocated order-0 block of its own and every list is empty. */
  lemma InitValid(s: nat, pages: seq<Page>, owner: seq<nat>, lists: seq<seq<nat>>)
    requires |owner| == |pages| && |lists| == BUDDY_MAX_ORDER
    requires forall i :: 0 <= i < |pages| ==> pages[i] == Page(0, true) && owner[i] == i
    requires forall k :: 0 <= k < BUDDY_MAX_ORDER ==> lists[k] == []
    ensures Inv(s, pages, owner, lists)
    ensures AllocatedBlocks(pages) == OrderZeroFrom(0, |pages|)
  {
    forall h | 0 <= h < |pages| ensures HeadOk(s, pages, owner, h) {
      assert Pow2(0) == 1;
      assert (s + h) % 1 == 0;
    }
    forall i | 0 <= i < |pages| ensures InBlock(pages, owner, i) {
      assert Pow2(0) == 1;
    }
  }

  // ---------------------------------------------------------------------
  // The code as written, where it differs from the model above.

  /** What the order scan of buddy_get_pages ends with, as written. */
  datatype ScanOutcome = Found(order: nat) | NotFound | OutOfBounds(index: nat)

  /** The scan of buddy_get_pages as written: the guard lets order ==
      BUDDY_MAX_ORDER through, and the loop reads the counter of list
      order_it before testing order_it against the bound, so it reads
      free_lists[BUDDY_MAX_ORDER], one past the array, whenever no list at or
      above `order` has a block. */
  function ScanAsWritten(nr: seq<int>, order: nat): (r: ScanOutcome)
    requires |nr| == BUDDY_MAX_ORDER
    ensures r.Found? ==> order <= r.order < BUDDY_MAX_ORDER && nr[r.order] != 0 &&
                         forall j :: order <= j < r.order ==> nr[j] == 0
  {
    if order > BUDDY_MAX_ORDER then NotFound else ScanFrom(nr, order)
  }

  function ScanFrom(nr: seq<int>, it: nat): (r: ScanOutcome)
    requires |nr| == BUDDY_MAX_ORDER && it <= BUDDY_MAX_ORDER
    ensures r.Found? ==> it <= r.order < BUDDY_MAX_ORDER && nr[r.order] != 0 &&
                         forall j :: it <= j < r.order ==> nr[j] == 0
    decreases BUDDY_MAX_ORDER - it
  {
    if it == BUDDY_MAX_ORDER then OutOfBounds(it)
    else if nr[it] != 0 then Found(it)
    else ScanFrom(nr, it + 1)
  }

  /** The scan as written reads past the array exactly when the corrected
      scan finds nothing for an order the guard lets through. */
  lemma {:induction false} ScanFromOutOfBounds(nr: seq<int>, it: nat)
    requires |nr| == BUDDY_MAX_ORDER && it <= BUDDY_MAX_ORDER
    ensures ScanFrom(nr, it) == OutOfBounds(BUDDY_MAX_ORDER) <==>
            forall j :: it <= j < BUDDY_MAX_ORDER ==> nr[j] == 0
    ensures ScanFrom(nr, it).Found? || ScanFrom(nr, it).OutOfBounds?
    decreases BUDDY_MAX_ORDER - it
  {
    if it < BUDDY_MAX_ORDER && nr[it] == 0 {
      ScanFromOutOfBounds(nr, it + 1);
    }
  }

  lemma ScanAsWrittenOutOfBounds(nr: seq<int>, order: nat)
    requires |nr| == BUDDY_MAX_ORDER
    ensures ScanAsWritten(nr, order) == OutOfBounds(BUDDY_MAX_ORDER) <==>
            order <= BUDDY_MAX_ORDER && forall j :: order <= j < BUDDY_MAX_ORDER ==> nr[j] == 0
  {
    if order <= BUDDY_MAX_ORDER {
      ScanFromOutOfBounds(nr, order);
    }
  }

  /** A request for the top order that the pool can serve, and a request on
      a pool with nothing free, both read past the array. */
  lemma ScanAsWrittenExamples()
    ensures ScanAsWritten(seq(BUDDY_MAX_ORDER, _ => 1), BUDDY_MAX_ORDER) == OutOfBounds(BUDDY_MAX_ORDER)
    ensures ScanAsWritten(seq(BUDDY_MAX_ORDER, _ => 0), 0) == OutOfBounds(BUDDY_MAX_ORDER)
  {
    ScanAsWrittenOutOfBounds(seq(BUDDY_MAX_ORDER, _ => 0), 0);
  }

  /** One round of merge_page as written. */
  datatype MergeRound = Stop | MergeWith(buddy: nat) | NullDeref

  /** merge_page as written dereferences the result of get_buddy_chunk
      without testing it, so an out-of-pool buddy is a NULL dereference. */
  function MergeRoundAsWritten(start: nat, n: nat, pages: seq<Page>, idx: nat): (r: MergeRound)
    requires idx < |pages| == n && pages[idx].order < BUDDY_MAX_ORDER
    ensures r == NullDeref <==>
            pages[idx].order != BUDDY_MAX_ORDER - 1 &&
            GetBuddyChunk(start, n * BUDDY_PAGE_SIZE, idx, pages[idx].order).None?
  {
    var order := pages[idx].order;
    if order == BUDDY_MAX_ORDER - 1 then Stop
    else
      match GetBuddyChunk(start, n * BUDDY_PAGE_SIZE, idx, order)
      case None => NullDeref
      case Some(b) =>
        if b < n && !pages[b].isAllocated && pages[b].order == order then MergeWith(b) else Stop
  }

  /** init_buddy on three pages at 1 MiB: pages 0 and 1 have merged into a
      free order-1 block and page 2 is freed next; its buddy, page 3, is
      outside the pool, and merge_page dereferences NULL. */
  lemma MergeNullDerefExample()
    ensures MergeRoundAsWritten(0x10_0000, 3, [Page(1, false), Page(0, false), Page(0, false)], 2)
            == NullDeref
  {
    GetBuddyChunkFrames(0x10_0000, 3, 2, 0);
    assert Pow2(0) == 1;
    assert FlipBit(258, 0) == 259;
  }

  // ---------------------------------------------------------------------
  // The pool (`struct phys_mem_pool`).

  class BuddyPool {
    var poolStartAddr: nat
    var poolMemSize: nat
    var pageMetadata: array<Page>
    /** free_lists[k].free_list, front node first. */
    var freeLists: seq<seq<nat>>
    /** free_lists[k].nr_free. */
    var nrFree: seq<int>
    /** Head of the block holding each page. */
    ghost var owner: seq<nat>

    /** The pool's layout: the records tile the pool into aligned blocks,
        the lists hold exactly the free heads and the counters match them. */
    ghost predicate Sound()
      reads this, pageMetadata
    {
      |owner| == pageMetadata.Length &&
      poolMemSize == pageMetadata.Length * BUDDY_PAGE_SIZE &&
      poolStartAddr + poolMemSize < U64_LIMIT &&
      Counted(nrFree, freeLists) &&
      Inv(poolStartAddr / BUDDY_PAGE_SIZE, pageMetadata[..], owner, freeLists)
    }

    /** The invariant between calls: a sound layout in which no free block
        has a free buddy of its own order below the top order. */
    ghost predicate Valid()
      reads this, pageMetadata
    {
      Sound() && Coalesced(poolStartAddr / BUDDY_PAGE_SIZE, pageMetadata[..], owner)
    }

    /** r heads a free block. */
    ghost predicate FreeHead(r: nat)
      reads this, pageMetadata
    {
      r < pageMetadata.Length && r < |owner| && owner[r] == r && !pageMetadata[r].isAllocated
    }

    /** Sound, and coalesced except around the block at x. */
    ghost predicate ValidBut(x: nat)
      reads this, pageMetadata
    {
      Sound() && CoalescedBut(poolStartAddr / BUDDY_PAGE_SIZE, pageMetadata[..], owner, x)
    }

    /** One round of `split_page`: the free block at idx leaves its list and
        its two halves, one order lower, go to the front of the list below;
        the lower half keeps the head. */
    method SplitHalves(idx: nat)
      requires ValidBut(idx) && idx < pageMetadata.Length && owner[idx] == idx
      requires !pageMetadata[idx].isAllocated && pageMetadata[idx].order >= 1
      modifies this, pageMetadata
      ensures pageMetadata == old(pageMetadata) && poolStartAddr == old(poolStartAddr)
      ensures poolMemSize == old(poolMemSize) && ValidBut(idx) && owner[idx] == idx
      ensures pageMetadata[idx] == Page(old(pageMetadata[idx].order) - 1, false)
      ensures idx + Pow2(old(pageMetadata[idx].order) - 1) < pageMetadata.Length
      ensures var k := old(pageMetadata[idx].order);
              var half := Pow2(k - 1);
              && pageMetadata[..] == SplitPages(old(pageMetadata[..]), idx, k, half)
              && freeLists == SplitLists(old(freeLists), idx, k, half)
              && nrFree == old(nrFree)[k := old(nrFree)[k] - 1][k - 1 := old(nrFree)[k - 1] + 2]
              && owner == SplitOwner(old(owner), idx, half)
      ensures AllocatedBlocks(pageMetadata[..]) == old(AllocatedBlocks(pageMetadata[..]))
      ensures FreeBytes(nrFree) == old(FreeBytes(nrFree))
    {
      var k := pageMetadata[idx].order;
      ghost var pages := pageMetadata[..];
      SplitRoundKeeps(poolStartAddr / BUDDY_PAGE_SIZE, pages, owner, freeLists, nrFree, idx, k);
      // both halves get order k - 1; the block leaves list k and the halves
      // go to the front of list k - 1, the upper one in front
      var smallOrder := k - 1;
      var half := Pow2(smallOrder);
      var buddy := idx + half;
      pageMetadata[idx] := Page(smallOrder, false);
      Install(buddy, Page(smallOrder, false), SplitPages(pages, idx, k, half),
              SplitLists(freeLists, idx, k, half),
              nrFree[k := nrFree[k] - 1][smallOrder := nrFree[smallOrder] + 2], SplitOwner(owner, idx, half));
    }

    /** `split_page`: halve the free block at idx until it has the target
        order; the lower half keeps the head throughout. */
    method SplitPage(targetOrder: nat, idx: nat) returns (r: nat)
      requires ValidBut(idx) && idx < pageMetadata.Length && owner[idx] == idx
      requires !pageMetadata[idx].isAllocated && targetOrder <= pageMetadata[idx].order
      modifies this, pageMetadata
      ensures pageMetadata == old(pageMetadata) && poolStartAddr == old(poolStartAddr)
      ensures poolMemSize == old(poolMemSize)
      ensures ValidBut(idx) && r == idx && idx < pageMetadata.Length && owner[idx] == idx
      ensures pageMetadata[idx] == Page(targetOrder, false)
      ensures AllocatedBlocks(pageMetadata[..]) == old(AllocatedBlocks(pageMetadata[..]))
      ensures FreeBytes(nrFree) == old(FreeBytes(nrFree))
      decreases pageMetadata[idx].order
    {
      if pageMetadata[idx].order == targetOrder {
        return idx;
      }
      SplitHalves(idx);
      r := SplitPage(targetOrder, idx);
    }

    /** The order scan of buddy_get_pages, with the bound corrected: orders
        from `order` up to BUDDY_MAX_ORDER - 1 are tried, and an order at or
        above BUDDY_MAX_ORDER finds nothing. */
    method FindNonEmptyOrder(order: nat) returns (r: Option<nat>)
      requires |nrFree| == BUDDY_MAX_ORDER
      ensures r.None? <==> forall j :: order <= j < BUDDY_MAX_ORDER ==> nrFree[j] == 0
      ensures r.Some? ==> order <= r.value < BUDDY_MAX_ORDER && nrFree[r.value] != 0 &&
                          forall j :: order <= j < r.value ==> nrFree[j] == 0
    {
      if order >= BUDDY_MAX_ORDER {
        return None;
      }
      var orderIt := order;
      while nrFree[orderIt] == 0
        invariant order <= orderIt < BUDDY_MAX_ORDER
        invariant forall j :: order <= j < orderIt ==> nrFree[j] == 0
        decreases BUDDY_MAX_ORDER - orderIt
      {
        if orderIt >= BUDDY_MAX_ORDER - 1 {
          return None;
        }
        orderIt := orderIt + 1;
      }
      return Some(orderIt);
    }

    /** `buddy_get_pages`: take the last block of the first non-empty list at
        or above `order`, split it down to `order` and hand out its head. */
    method GetPages(order: nat) returns (r: Option<nat>)
      requires Valid()
      modifies this, pageMetadata
      ensures pageMetadata == old(pageMetadata) && poolStartAddr == old(poolStartAddr)
      ensures poolMemSize == old(poolMemSize) && Valid()
      ensures r.None? <==> forall j :: order <= j < BUDDY_MAX_ORDER ==> old(freeLists[j]) == []
      ensures r.None? ==> pageMetadata[..] == old(pageMetadata[..]) &&
                          freeLists == old(freeLists) && nrFree == old(nrFree)
      ensures r.Some? ==>
                var idx := r.value;
                (exists j :: TakenFrom(old(freeLists), order, j, idx)) &&
                idx < pageMetadata.Length && owner[idx] == idx &&
                pageMetadata[idx] == Page(order, true) &&
                (forall j :: 0 <= j < BUDDY_MAX_ORDER ==> idx !in freeLists[j]) &&
                AllocatedBlocks(pageMetadata[..]) == old(AllocatedBlocks(pageMetadata[..]))[idx := order] &&
                FreeBytes(nrFree) == old(FreeBytes(nrFree)) - BlockBytes(order)
    {
      var found := FindNonEmptyOrder(order);
      if found.None? {
        return None;
      }
      var j := found.value;
      var list := freeLists[j];
      var idx := list[|list| - 1];
      assert TakenFrom(old(freeLists), order, j, idx);
      assert idx in freeLists[j];
      assert idx < pageMetadata.Length && owner[idx] == idx && pageMetadata[idx] == Page(j, false);
      idx := SplitPage(order, idx);
      TakeBlock(idx);
      return Some(idx);
    }

    /** The end of `buddy_get_pages`: the free block at idx, the only one
        that may have a free buddy, leaves its list and is allocated. */
    method TakeBlock(idx: nat)
      requires ValidBut(idx) && idx < pageMetadata.Length && owner[idx] == idx
      requires !pageMetadata[idx].isAllocated
      modifies this, pageMetadata
      ensures pageMetadata == old(pageMetadata) && poolStartAddr == old(poolStartAddr)
      ensures poolMemSize == old(poolMemSize) && Valid() && owner == old(owner)
      ensures pageMetadata[idx] == Page(old(pageMetadata[idx].order), true)
      ensures forall j :: 0 <= j < BUDDY_MAX_ORDER ==> idx !in freeLists[j]
      ensures AllocatedBlocks(pageMetadata[..]) ==
              old(AllocatedBlocks(pageMetadata[..]))[idx := old(pageMetadata[idx].order)]
      ensures FreeBytes(nrFree) == old(FreeBytes(nrFree)) - BlockBytes(old(pageMetadata[idx].order))
    {
      var k := pageMetadata[idx].order;
      ghost var pages := pageMetadata[..];
      TakeStep(poolStartAddr / BUDDY_PAGE_SIZE, pages, owner, freeLists, nrFree, idx, k);
      TakeCoalesced(poolStartAddr / BUDDY_PAGE_SIZE, pages, owner, idx);
      // nr_free of order k drops, list_del, then the block is allocated
      Install(idx, Page(k, true), pages[idx := Page(k, true)],
              freeLists[k := Remove(freeLists[k], idx)], nrFree[k := nrFree[k] - 1], owner);
    }

    /** The body of one merge_page round: free buddies idx and buddy of
        order `order` leave list `order`, and the lower one becomes the head
        of a free block of order `order` + 1 at the front of its list. */
    method MergeWithBuddy(idx: nat, buddy: nat, order: nat) returns (merged: nat)
      requires ValidBut(idx) && idx < pageMetadata.Length && owner[idx] == idx
      requires pageMetadata[idx] == Page(order, false) && order + 1 < BUDDY_MAX_ORDER
      requires buddy < pageMetadata.Length && pageMetadata[buddy] == Page(order, false)
      requires poolStartAddr / BUDDY_PAGE_SIZE + buddy
               == FlipBit(poolStartAddr / BUDDY_PAGE_SIZE + idx, order)
      modifies this, pageMetadata
      ensures pageMetadata == old(pageMetadata) && poolStartAddr == old(poolStartAddr)
      ensures poolMemSize == old(poolMemSize)
      ensures merged == (if idx < buddy then idx else buddy)
      ensures ValidBut(merged) && merged < pageMetadata.Length && owner[merged] == merged
      ensures pageMetadata[merged] == Page(order + 1, false)
      ensures pageMetadata[..] == MergePages(old(pageMetadata[..]), merged, order)
      ensures freeLists == MergeLists(old(freeLists), idx, buddy, merged, order)
      ensures nrFree == old(nrFree)[order := old(nrFree)[order] - 2][order + 1 := old(nrFree)[order + 1] + 1]
      ensures owner == MergeOwner(old(owner), merged, if idx < buddy then buddy else idx, Pow2(order))
      ensures merged <= idx && idx + Pow2(order) <= merged + Pow2(order + 1)
      ensures AllocatedBlocks(pageMetadata[..]) == old(AllocatedBlocks(pageMetadata[..]))
      ensures FreeBytes(nrFree) == old(FreeBytes(nrFree))
    {
      MergeRoundKeeps(poolStartAddr / BUDDY_PAGE_SIZE, pageMetadata[..], owner, freeLists, nrFree,
                      idx, buddy, order);
      merged := if idx < buddy then idx else buddy;
      ghost var owner' := MergeOwner(owner, merged, if idx < buddy then buddy else idx, Pow2(order));
      // list_del of both buddies, list_add of the merged block
      var lists' := MergeLists(freeLists, idx, buddy, merged, order);
      var nr' := nrFree[order := nrFree[order] - 2][order + 1 := nrFree[order + 1] + 1];
      Install(merged, Page(order + 1, false), MergePages(pageMetadata[..], merged, order), lists', nr', owner');
    }

    /** Writes the record at i and replaces the lists, the counters and the
        owners: the last step of a split, a merge round or an allocation.
        The pool is sound afterwards when the new values form a layout. */
    method Install(i: nat, p: Page, ghost pages: seq<Page>, lists: seq<seq<nat>>, nr: seq<int>,
                   ghost own: seq<nat>)
      requires i < pageMetadata.Length && pageMetadata[..][i := p] == pages
      requires poolMemSize == pageMetadata.Length * BUDDY_PAGE_SIZE && poolStartAddr + poolMemSize < U64_LIMIT
      requires Layout(poolStartAddr / BUDDY_PAGE_SIZE, pages, own, lists, nr)
      modifies this, pageMetadata
      ensures pageMetadata == old(pageMetadata) && poolStartAddr == old(poolStartAddr)
      ensures poolMemSize == old(poolMemSize)
      ensures pageMetadata[..] == pages && freeLists == lists && nrFree == nr && owner == own
      ensures Sound()
    {
      pageMetadata[i] := p;
      freeLists, nrFree, owner := lists, nr, own;
    }

    /** `get_buddy_chunk` on this pool: the buddy of the order-k block at
        idx is the page whose frame number differs in bit k, when the pool
        holds it. */
    method BuddyChunk(idx: nat, k: nat) returns (r: Option<nat>)
      requires poolMemSize == pageMetadata.Length * BUDDY_PAGE_SIZE
      requires poolStartAddr + poolMemSize < U64_LIMIT
      requires idx < pageMetadata.Length && k + 1 < BUDDY_MAX_ORDER
      ensures r == BuddyIndex(poolStartAddr / BUDDY_PAGE_SIZE, pageMetadata.Length, idx, k)
    {
      r := GetBuddyChunk(poolStartAddr, poolMemSize, idx, k);
      GetBuddyChunkFrames(poolStartAddr, pageMetadata.Length, idx, k);
    }

    /** `merge_page`, with an out-of-pool buddy treated as "no merge": while
        the block at idx is below the top order and its buddy is a free block
        of the same order, the two become one block at the lower address. */
    method MergePage(idx: nat) returns (r: nat)
      requires ValidBut(idx) && idx < pageMetadata.Length && owner[idx] == idx
      requires !pageMetadata[idx].isAllocated
      modifies this, pageMetadata
      ensures pageMetadata == old(pageMetadata) && poolStartAddr == old(poolStartAddr)
      ensures poolMemSize == old(poolMemSize) && Valid()
      ensures r < pageMetadata.Length && owner[r] == r && !pageMetadata[r].isAllocated
      ensures MergeStops(poolStartAddr / BUDDY_PAGE_SIZE, pageMetadata[..], r)
      ensures r <= idx && idx + Pow2(old(pageMetadata[idx].order)) <= r + Pow2(pageMetadata[r].order)
      ensures AllocatedBlocks(pageMetadata[..]) == old(AllocatedBlocks(pageMetadata[..]))
      ensures FreeBytes(nrFree) == old(FreeBytes(nrFree))
      decreases BUDDY_MAX_ORDER - pageMetadata[idx].order
    {
      var order := pageMetadata[idx].order;
      ghost var s := poolStartAddr / BUDDY_PAGE_SIZE;
      assert HeadOk(s, pageMetadata[..], owner, idx);
      // stop at the top order, at a buddy outside the pool, or at a buddy
      // that is allocated or of another order
      var buddyChunk: Option<nat> := None;
      if order != BUDDY_MAX_ORDER - 1 {
        buddyChunk := BuddyChunk(idx, order);
      }
      if buddyChunk.None? || pageMetadata[buddyChunk.value].isAllocated ||
         pageMetadata[buddyChunk.value].order != order {
        StopCoalesced(s, pageMetadata[..], owner, idx);
        return idx;
      }
      var buddy := buddyChunk.value;
      var merged := MergeWithBuddy(idx, buddy, order);
      r := MergePage(merged);
    }

    /** `buddy_free_pages`: a record that is not an allocated head (a free
        head, or a page inside a block) is left alone; an allocated block
        goes to the front of its list and is merged with its buddies. */
    method FreePages(idx: nat)
      requires Valid() && idx < pageMetadata.Length
      modifies this, pageMetadata
      ensures pageMetadata == old(pageMetadata) && poolStartAddr == old(poolStartAddr)
      ensures poolMemSize == old(poolMemSize) && Valid()
      ensures !old(pageMetadata[idx].isAllocated) ==>
                pageMetadata[..] == old(pageMetadata[..]) && freeLists == old(freeLists) &&
                nrFree == old(nrFree) && owner == old(owner)
      ensures old(pageMetadata[idx].isAllocated) ==>
                AllocatedBlocks(pageMetadata[..]) == old(AllocatedBlocks(pageMetadata[..])) - {idx} &&
                FreeBytes(nrFree) == old(FreeBytes(nrFree)) + BlockBytes(old(pageMetadata[idx].order))
      ensures old(pageMetadata[idx].isAllocated) ==>
                exists r: nat :: r <= idx && FreeHead(r) &&
                  idx + Pow2(old(pageMetadata[idx].order)) <= r + Pow2(pageMetadata[r].order)
    {
      if !pageMetadata[idx].isAllocated {
        return;
      }
      var order := pageMetadata[idx].order;
      PushStep(poolStartAddr / BUDDY_PAGE_SIZE, pageMetadata[..], owner, freeLists, nrFree, idx, order);
      PushCoalesced(poolStartAddr / BUDDY_PAGE_SIZE, pageMetadata[..], owner, idx);
      pageMetadata[idx] := pageMetadata[idx].(isAllocated := false);
      // the order is below BUDDY_MAX_ORDER here, so the range check of the
      // source never fires
      freeLists := freeLists[order := [idx] + freeLists[order]];
      nrFree := nrFree[order := nrFree[order] + 1];
      var head := MergePage(idx);
      assert FreeHead(head);
    }

    /** buddy_get_pages followed by buddy_free_pages of the block it returned
        gives back the pool it started from, up to the order of the nodes on
        each free list: the same allocated blocks, the same blocks on each
        list and the same free bytes. */
    method GetThenFree(order: nat) returns (r: Option<nat>)
      requires Valid()
      modifies this, pageMetadata
      ensures pageMetadata == old(pageMetadata) && poolStartAddr == old(poolStartAddr)
      ensures poolMemSize == old(poolMemSize) && Valid()
      ensures AllocatedBlocks(pageMetadata[..]) == old(AllocatedBlocks(pageMetadata[..]))
      ensures forall k, x :: 0 <= k < BUDDY_MAX_ORDER ==> (x in freeLists[k] <==> x in old(freeLists[k]))
      ensures FreeBytes(nrFree) == old(FreeBytes(nrFree))
    {
      ghost var s := poolStartAddr / BUDDY_PAGE_SIZE;
      ghost var pages0, owner0, lists0 := pageMetadata[..], owner, freeLists;
      r := GetPages(order);
      if r.Some? {
        var idx := r.value;
        ghost var j: nat :| TakenFrom(lists0, order, j, idx);
        assert idx in lists0[j];
        Listed(pages0, owner0, lists0, j, idx);
        FreePages(idx);
        UpdateRemove(AllocatedBlocks(pages0), idx, order);
      }
      FreeListsDetermined(s, pages0, owner0, lists0, pageMetadata[..], owner, freeLists);
    }

    /** `get_free_mem_size_from_buddy`: the sum over the orders of nr_free
        blocks of 4096 * 2^order bytes, accumulated in u64 arithmetic. */
    method GetFreeMemSize() returns (total: nat)
      requires Valid()
      ensures total == FreeBytes(nrFree) % U64_LIMIT
    {
      total := 0;
      var order := 0;
      while order < BUDDY_MAX_ORDER
        invariant 0 <= order <= BUDDY_MAX_ORDER
        invariant total == FreeBytes(nrFree[..order]) % U64_LIMIT
      {
        var currentOrderSize := BUDDY_PAGE_SIZE * Pow2(order);
        assert nrFree[order] == |freeLists[order]|;
        var add: nat := nrFree[order] * currentOrderSize;
        assert nrFree[..order + 1][..order] == nrFree[..order];
        ModAdd(FreeBytes(nrFree[..order]), add, U64_LIMIT);
        total := (total + add) % U64_LIMIT;
        order := order + 1;
      }
      assert nrFree[..BUDDY_MAX_ORDER] == nrFree;
    }

    /** `init_buddy`: a pool over pageNum pages from startAddr, every record
        first marked as an allocated order-0 block, then each page freed in
        turn, merging as it goes; the pool ends all free and coalesced. */
    constructor Init(startAddr: nat, pageNum: nat)
      requires startAddr + pageNum * BUDDY_PAGE_SIZE < U64_LIMIT
      ensures Valid() && fresh(pageMetadata)
      ensures poolStartAddr == startAddr && pageMetadata.Length == pageNum
      ensures poolMemSize == pageNum * BUDDY_PAGE_SIZE
      ensures AllocatedBlocks(pageMetadata[..]) == map[]
      ensures FreeBytes(nrFree) == pageNum * BUDDY_PAGE_SIZE
    {
      poolStartAddr := startAddr;
      poolMemSize := pageNum * BUDDY_PAGE_SIZE;
      freeLists := seq(BUDDY_MAX_ORDER, _ => []);
      nrFree := seq(BUDDY_MAX_ORDER, _ => 0);
      pageMetadata := new Page[pageNum](_ => Page(0, true));
      owner := seq(pageNum, i => i);
      new;
      InitValid(poolStartAddr / BUDDY_PAGE_SIZE, pageMetadata[..], owner, freeLists);
      FreeBytesZero(nrFree);
      FreeEachPage();
    }

    /** The last loop of `init_buddy`: every page, still an allocated
        order-0 block, is freed in turn. */
    method FreeEachPage()
      requires Valid() && AllocatedBlocks(pageMetadata[..]) == OrderZeroFrom(0, pageMetadata.Length)
      requires FreeBytes(nrFree) == 0
      modifies this, pageMetadata
      ensures pageMetadata == old(pageMetadata) && poolStartAddr == old(poolStartAddr)
      ensures poolMemSize == old(poolMemSize) && Valid()
      ensures AllocatedBlocks(pageMetadata[..]) == map[]
      ensures FreeBytes(nrFree) == pageMetadata.Length * BUDDY_PAGE_SIZE
    {
      var pageIdx := 0;
      while pageIdx < pageMetadata.Length
        invariant Valid() && pageMetadata == old(pageMetadata)
        invariant poolStartAddr == old(poolStartAddr) && poolMemSize == old(poolMemSize)
        invariant 0 <= pageIdx <= pageMetadata.Length
        invariant AllocatedBlocks(pageMetadata[..]) == OrderZeroFrom(pageIdx, pageMetadata.Length)
        invariant FreeBytes(nrFree) == pageIdx * BUDDY_PAGE_SIZE
      {
        assert pageIdx in AllocatedBlocks(pageMetadata[..]);
        FreePages(pageIdx);
        assert BlockBytes(0) == BUDDY_PAGE_SIZE;
        OrderZeroFromNext(pageIdx, pageMetadata.Length);
        pageIdx := pageIdx + 1;
      }
    }
  }
}
