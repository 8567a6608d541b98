/**
 * The kernel heap of src/memory/heap.cpp: an address-ordered singly linked list of
 * regions, each a 16-byte header (next pointer, used bit, 63-bit size) followed by
 * `size` payload bytes. The list tiles the heap's mapped pages exactly; `head` and
 * `tail` point at its first and last header and `page_count` counts the mapped pages.
 *
 * Addresses are byte offsets from the heap base (virt::HEAP). The list is the sequence
 * `regions` in list order: a node's `next` is the following element. Getting a frame from
 * the physical allocator and mapping it (virt::map_pages) are foreign to this module;
 * each growth attempt sees their combined result as a GrowOutcome.
 */
module Heap {
  import opened Wrappers

  const PageSize: nat := 4096
  /** sizeof(Region): the next pointer plus the used/size bit-field word. */
  const HeaderSize: nat := 16
  /** alloc_from_node splits only if the remainder holds a header and 8 payload bytes. */
  const MinSplit: nat := 24

  /** A region header at offset `addr`; its payload starts at addr + 16. */
  datatype Region = Region(addr: nat, used: bool, size: nat)

  /** What one call of grow gets from phys::alloc_pages(1) and virt::map_pages. */
  datatype GrowOutcome =
    | NoFrame    // alloc_pages returned 0
    | MapFailed  // the frame was taken but map_pages failed: it is never given back
    | Mapped     // the frame is mapped at the heap's end

  /** Header plus payload: the bytes a region occupies. */
  function Extent(r: Region): nat {
    HeaderSize + r.size
  }

  /** The bytes covered by a run of regions: the sum of 16 + size. */
  function Span(rs: seq<Region>): nat {
    if rs == [] then 0 else Span(rs[..|rs| - 1]) + Extent(rs[|rs| - 1])
  }

  /** Where a run of regions ends: the last one's end, or `base` for none. */
  function End(rs: seq<Region>, base: nat): nat {
    if rs == [] then base else rs[|rs| - 1].addr + Extent(rs[|rs| - 1])
  }

  /** Region b starts right where region a ends. */
  predicate Abuts(a: Region, b: Region) {
    b.addr == a.addr + Extent(a)
  }

  /** Of two neighbouring regions at least one is in use. */
  predicate Apart(a: Region, b: Region) {
    a.used || b.used
  }

  /** Each region starts right where the one before it ends. */
  ghost predicate Chained(rs: seq<Region>) {
    forall k, l {:trigger Abuts(rs[k], rs[l])} :: 0 <= k && l == k + 1 && l < |rs| ==> Abuts(rs[k], rs[l])
  }

  /** The list tiles the heap from offset 0 with no gaps (list order is address order). */
  ghost predicate Tiled(rs: seq<Region>) {
    (rs != [] ==> rs[0].addr == 0) && Chained(rs)
  }

  /** No two neighbouring regions are both free. */
  ghost predicate NoAdjacentFree(rs: seq<Region>) {
    forall k, l {:trigger Apart(rs[k], rs[l])} :: 0 <= k && l == k + 1 && l < |rs| ==> Apart(rs[k], rs[l])
  }

  /** The heap's invariant over `pages` mapped pages: tiled up to their end, no two free neighbours. */
  ghost predicate Sound(rs: seq<Region>, pages: nat) {
    Tiled(rs) && End(rs, 0) == pages * PageSize && NoAdjacentFree(rs)
  }

  /** CHECK_REGION of alloc: free and large enough. */
  predicate Fits(r: Region, size: nat) {
    !r.used && r.size >= size
  }

  /** The regions handed out: used headers. */
  ghost function Allocated(rs: seq<Region>): set<Region> {
    set r | r in rs && r.used
  }

  // ---------------------------------------------------------------------------
  // Tiling

  /** A chained run ends its span past its first address. */
  lemma {:induction false} ChainedSpan(rs: seq<Region>)
    requires Chained(rs) && rs != []
    ensures End(rs, 0) == rs[0].addr + Span(rs)
  {
    var n := |rs| - 1;
    if n > 0 {
      var p := rs[..n];
      assert Chained(p) by {
        forall k, l | 0 <= k && l == k + 1 && l < |p|
          ensures Abuts(p[k], p[l])
        {
          assert p[k] == rs[k] && p[l] == rs[l];
        }
      }
      ChainedSpan(p);
      assert p[n - 1] == rs[n - 1] && p[0] == rs[0];
      assert Abuts(rs[n - 1], rs[n]);
    }
  }

  /** The bytes of a tiled list, headers and payloads, are exactly the heap up to its end. */
  lemma TiledSpan(rs: seq<Region>)
    requires Tiled(rs)
    ensures Span(rs) == End(rs, 0)
  {
    if rs != [] {
      ChainedSpan(rs);
    }
  }

  /** In a chained run a region ends at or before any later region starts. */
  lemma {:induction false} ChainedOrdered(rs: seq<Region>, i: nat, j: nat)
    requires Chained(rs) && i < j < |rs|
    ensures rs[i].addr + Extent(rs[i]) <= rs[j].addr
    decreases j - i
  {
    var p := rs[j - 1];
    assert Abuts(p, rs[j]);
    if i + 1 < j {
      ChainedOrdered(rs, i, j - 1);
    }
  }

  /** In a chained run different positions hold regions at different addresses. */
  lemma ChainedDistinct(rs: seq<Region>, i: nat, j: nat)
    requires Chained(rs) && i < |rs| && j < |rs| && i != j
    ensures rs[i].addr != rs[j].addr
  {
    if i < j {
      ChainedOrdered(rs, i, j);
    } else {
      ChainedOrdered(rs, j, i);
    }
  }

  /**
   * Replacing a stretch of a tiled list by a chained run that starts and ends where the
   * stretch did keeps the list tiled and its end unchanged. Every in-place rewrite of the
   * heap (a used-bit flip, a split, a merge) is such a replacement.
   */
  lemma Splice(rs: seq<Region>, i: nat, j: nat, mid: seq<Region>)
    requires Tiled(rs) && i < j <= |rs|
    requires mid != [] && Chained(mid)
    requires mid[0].addr == rs[i].addr && End(mid, 0) == End(rs[..j], 0)
    ensures Tiled(rs[..i] + mid + rs[j..])
    ensures End(rs[..i] + mid + rs[j..], 0) == End(rs, 0)
  {
    var t := rs[..i] + mid + rs[j..];
    var e := |mid| + i;
    forall k, l | 0 <= k && l == k + 1 && l < |t|
      ensures Abuts(t[k], t[l])
    {
      if l < i {
        assert t[k] == rs[k] && t[l] == rs[l];
        assert Abuts(rs[k], rs[l]);
      } else if l == i {
        assert t[k] == rs[k] && t[l] == mid[0];
        assert Abuts(rs[k], rs[l]);
      } else if l < e {
        assert t[k] == mid[k - i] && t[l] == mid[l - i];
        assert Abuts(mid[k - i], mid[l - i]);
      } else if l == e {
        assert t[k] == mid[|mid| - 1] && t[l] == rs[j];
        assert rs[..j][j - 1] == rs[j - 1];
        assert Abuts(rs[j - 1], rs[j]);
      } else {
        assert t[k] == rs[k - e + j] && t[l] == rs[l - e + j];
        assert Abuts(rs[k - e + j], rs[l - e + j]);
      }
    }
    if i == 0 {
      assert t[0] == mid[0];
    } else {
      assert t[0] == rs[0];
    }
    if j < |rs| {
      assert t[|t| - 1] == rs[|rs| - 1];
    } else {
      assert t[|t| - 1] == mid[|mid| - 1];
      assert rs[..j] == rs;
    }
  }

  /** A run of one region is chained and ends where the region does. */
  lemma Single(r: Region)
    ensures Chained([r]) && End([r], 0) == r.addr + Extent(r)
  {
  }

  /** The stretch [i, i + 1) of a list ends where region i does. */
  lemma EndAt(rs: seq<Region>, i: nat)
    requires i < |rs|
    ensures End(rs[..i + 1], 0) == rs[i].addr + Extent(rs[i])
  {
    assert rs[..i + 1][i] == rs[i];
  }

  // ---------------------------------------------------------------------------
  // grow

  /** The list after a successful grow, when `pages` pages were mapped before. */
  function Grown(rs: seq<Region>, pages: nat): (g: seq<Region>)
    ensures |g| == |rs| || (|g| == |rs| + 1 && (rs == [] || rs[|rs| - 1].used))
    ensures g != [] && !g[|g| - 1].used
    ensures rs != [] ==> g[..|rs| - 1] == rs[..|rs| - 1]
  {
    if rs == [] || rs[|rs| - 1].used then rs + [Region(pages * PageSize, false, PageSize - HeaderSize)]
    else rs[..|rs| - 1] + [rs[|rs| - 1].(size := rs[|rs| - 1].size + PageSize)]
  }

  /**
   * The two cases of grow: behind a used tail (or in an empty heap) one free region of
   * one page less its header is appended at the old end of the heap; otherwise the
   * free tail widens by one page.
   */
  lemma GrownShape(rs: seq<Region>, pages: nat)
    ensures var g := Grown(rs, pages);
            rs == [] || rs[|rs| - 1].used ==>
              |g| == |rs| + 1 && g[..|rs|] == rs && g[|rs|] == Region(pages * PageSize, false, PageSize - HeaderSize)
    ensures var g := Grown(rs, pages);
            rs != [] && !rs[|rs| - 1].used ==>
              |g| == |rs| && g[..|rs| - 1] == rs[..|rs| - 1] && g[|rs| - 1] == rs[|rs| - 1].(size := rs[|rs| - 1].size + PageSize)
  {
  }

  /**
   * A grow keeps the list tiled, covers one more page, leaves no two free neighbours
   * and leaves a free tail.
   */
  lemma GrownValid(rs: seq<Region>, pages: nat)
    requires Tiled(rs) && End(rs, 0) == pages * PageSize && NoAdjacentFree(rs)
    ensures var g := Grown(rs, pages);
            Tiled(g) && End(g, 0) == (pages + 1) * PageSize && NoAdjacentFree(g)
    ensures var g := Grown(rs, pages); g != [] && !g[|g| - 1].used
  {
    var g := Grown(rs, pages);
    var n := |rs|;
    if rs == [] || rs[n - 1].used {
      forall k, l | 0 <= k && l == k + 1 && l < |g|
        ensures Abuts(g[k], g[l]) && Apart(g[k], g[l])
      {
        assert g[k] == rs[k];
        if l < n {
          assert g[l] == rs[l];
          assert Abuts(rs[k], rs[l]) && Apart(rs[k], rs[l]);
        }
      }
    } else {
      var t := rs[n - 1].(size := rs[n - 1].size + PageSize);
      assert g == rs[..n - 1] + [t];
      if n > 1 {
        assert Apart(rs[n - 2], rs[n - 1]);
      }
      forall k, l | 0 <= k && l == k + 1 && l < |g|
        ensures Abuts(g[k], g[l]) && Apart(g[k], g[l])
      {
        assert g[k] == rs[k];
        assert Abuts(rs[k], rs[l]);
        if l < n - 1 {
          assert g[l] == rs[l];
          assert Apart(rs[k], rs[l]);
        }
      }
      if n > 1 {
        assert g[0] == rs[0];
      }
    }
  }

  /** `j` successful grows in a row, starting from `pages` mapped pages. */
  function GrowN(rs: seq<Region>, pages: nat, j: nat): seq<Region>
  {
    if j == 0 then rs else Grown(GrowN(rs, pages, j - 1), pages + j - 1)
  }

  /** One more grow on top of j grows. */
  lemma GrowNStep(rs: seq<Region>, pages: nat, j: nat, before: seq<Region>, after: seq<Region>)
    requires before == GrowN(rs, pages, j) && after == Grown(before, pages + j)
    ensures after == GrowN(rs, pages, j + 1)
  {
  }

  /** A grow on a free tail only lengthens it by one page. */
  lemma GrownOnFreeTail(rs: seq<Region>, pre: seq<Region>, last: Region, pages: nat)
    requires rs == pre + [last] && !last.used
    ensures Grown(rs, pages) == pre + [last.(size := last.size + PageSize)]
  {
    assert rs[..|pre|] == pre;
  }

  /** After j grows a free tail is the old tail with j more pages. */
  lemma {:induction false} GrowNFreeTail(rs: seq<Region>, pages: nat, j: nat)
    requires rs != [] && !rs[|rs| - 1].used
    ensures GrowN(rs, pages, j) == rs[..|rs| - 1] + [rs[|rs| - 1].(size := rs[|rs| - 1].size + j * PageSize)]
  {
    if j == 0 {
      GrowNZeroFree(rs, pages);
    } else {
      GrowNFreeTail(rs, pages, j - 1);
      GrowNFreeStep(rs, pages, j);
    }
  }

  /** One more grow on a free tail that j - 1 grows have widened. */
  lemma GrowNFreeStep(rs: seq<Region>, pages: nat, j: nat)
    requires rs != [] && !rs[|rs| - 1].used && j > 0
    requires GrowN(rs, pages, j - 1) == rs[..|rs| - 1] + [rs[|rs| - 1].(size := rs[|rs| - 1].size + (j - 1) * PageSize)]
    ensures GrowN(rs, pages, j) == rs[..|rs| - 1] + [rs[|rs| - 1].(size := rs[|rs| - 1].size + j * PageSize)]
  {
    var t := rs[|rs| - 1];
    var prev := GrowN(rs, pages, j - 1);
    var last := t.(size := t.size + (j - 1) * PageSize);
    GrownOnFreeTail(prev, rs[..|rs| - 1], last, pages + j - 1);
    GrowNStep(rs, pages, j - 1, prev, Grown(prev, pages + j - 1));
    assert (j - 1) * PageSize + PageSize == j * PageSize;
    assert last.(size := last.size + PageSize) == t.(size := t.size + j * PageSize);
  }

  /** No grow at all: the free tail keeps its size. */
  lemma GrowNZeroFree(rs: seq<Region>, pages: nat)
    requires rs != []
    ensures GrowN(rs, pages, 0) == rs[..|rs| - 1] + [rs[|rs| - 1].(size := rs[|rs| - 1].size + 0 * PageSize)]
  {
    var t := rs[|rs| - 1];
    assert t.(size := t.size + 0 * PageSize) == t;
    assert rs == rs[..|rs| - 1] + [t];
  }

  /**
   * After j > 0 grows behind a used tail there is one new free region at the old end
   * of the heap, holding j pages less its header.
   */
  lemma {:induction false} GrowNUsedTail(rs: seq<Region>, pages: nat, j: nat)
    requires rs != [] && rs[|rs| - 1].used && j > 0
    ensures GrowN(rs, pages, j) == rs + [Region(pages * PageSize, false, j * PageSize - HeaderSize)]
  {
    if j > 1 {
      GrowNUsedTail(rs, pages, j - 1);
      var prev := GrowN(rs, pages, j - 1);
      assert prev == rs + [Region(pages * PageSize, false, (j - 1) * PageSize - HeaderSize)];
      assert prev[..|prev| - 1] == rs;
    }
  }

  /** Any number of grows keeps the heap's invariants and adds one page each. */
  lemma {:induction false} GrowNValid(rs: seq<Region>, pages: nat, j: nat)
    requires Sound(rs, pages)
    ensures Sound(GrowN(rs, pages, j), pages + j)
  {
    if j > 0 {
      GrowNValid(rs, pages, j - 1);
      GrowNValidStep(rs, pages, j - 1, GrowN(rs, pages, j - 1));
    }
  }

  /** One more grow keeps the invariants that k grows kept. */
  lemma GrowNValidStep(rs: seq<Region>, pages: nat, k: nat, prev: seq<Region>)
    requires prev == GrowN(rs, pages, k)
    requires Sound(prev, pages + k)
    ensures Sound(GrowN(rs, pages, k + 1), pages + k + 1)
  {
    GrownValid(prev, pages + k);
    GrowNStep(rs, pages, k, prev, Grown(prev, pages + k));
  }

  /** Whole pages needed to hold n bytes. */
  function PagesFor(n: nat): nat {
    (n + PageSize - 1) / PageSize
  }

  /** j pages hold n bytes exactly when j is at least PagesFor(n). */
  lemma PagesForBound(n: nat, j: nat)
    ensures j * PageSize >= n <==> j >= PagesFor(n)
  {
    var q := PagesFor(n);
    assert n + PageSize - 1 == q * PageSize + (n + PageSize - 1) % PageSize;
    if j >= q {
      assert j * PageSize >= q * PageSize;
    } else {
      assert j * PageSize <= (q - 1) * PageSize;
    }
  }

  /**
   * Grows alloc performs before the tail fits `size`: none if it fits already; enough
   * pages to make up the shortfall of a free tail; or, behind a used tail, enough pages
   * for a new region of `size` bytes and its header.
   */
  function GrowsNeeded(rs: seq<Region>, size: nat): (n: nat)
    requires rs != []
    ensures n == 0 <==> Fits(rs[|rs| - 1], size)
  {
    var t := rs[|rs| - 1];
    if Fits(t, size) then 0
    else if !t.used then PagesFor(size - t.size)
    else PagesFor(size + HeaderSize)
  }

  /** The tail fits after j grows exactly when j reaches GrowsNeeded. */
  lemma GrowsNeededExact(rs: seq<Region>, pages: nat, size: nat, j: nat)
    requires rs != []
    ensures var g := GrowN(rs, pages, j);
            g != [] && (Fits(g[|g| - 1], size) <==> j >= GrowsNeeded(rs, size))
  {
    var t := rs[|rs| - 1];
    if !t.used {
      GrowNFreeTail(rs, pages, j);
    } else if j > 0 {
      GrowNUsedTail(rs, pages, j);
    }
    if !t.used {
      if t.size < size {
        PagesForBound(size - t.size, j);
      }
    } else {
      PagesForBound(size + HeaderSize, j);
      if j == 0 {
        assert PagesFor(size + HeaderSize) >= 1;
      }
    }
  }

  /** The outcome of attempt t; attempts past the end find no frame. */
  function OutcomeAt(outcomes: seq<GrowOutcome>, t: nat): GrowOutcome {
    if t < |outcomes| then outcomes[t] else NoFrame
  }

  /** Index of the first of the attempts from..n-1 whose outcome is not Mapped. */
  function FirstFailure(outcomes: seq<GrowOutcome>, n: nat, from: nat): (r: Option<nat>)
    decreases n - from
    ensures r.Some? ==> from <= r.value < n && OutcomeAt(outcomes, r.value) != Mapped
    ensures r.Some? ==> forall t :: from <= t < r.value ==> OutcomeAt(outcomes, t) == Mapped
    ensures r.None? ==> forall t :: from <= t < n ==> OutcomeAt(outcomes, t) == Mapped
  {
    if from >= n then None
    else if OutcomeAt(outcomes, from) != Mapped then Some(from)
    else FirstFailure(outcomes, n, from + 1)
  }

  // ---------------------------------------------------------------------------
  // alloc_from_node and the first-fit search

  /** Index of the first region at or after `from` that fits `size`. */
  function FirstFit(rs: seq<Region>, size: nat, from: nat): (r: Option<nat>)
    requires from <= |rs|
    decreases |rs| - from
    ensures r.Some? ==> from <= r.value < |rs| && Fits(rs[r.value], size)
    ensures r.Some? ==> forall k :: from <= k < r.value ==> !Fits(rs[k], size)
    ensures r.None? ==> forall k :: from <= k < |rs| ==> !Fits(rs[k], size)
  {
    if from == |rs| then None
    else if Fits(rs[from], size) then Some(from)
    else FirstFit(rs, size, from + 1)
  }

  /**
   * The list after alloc_from_node gives `size` bytes of region i: the region is split
   * into a used region of exactly `size` bytes and a free remainder when at least 24
   * bytes would be left over, and is used whole otherwise.
   */
  function Carved(rs: seq<Region>, i: nat, size: nat): (c: seq<Region>)
    requires i < |rs| && size <= rs[i].size
    ensures |c| == |rs| || |c| == |rs| + 1
    ensures c[..i] == rs[..i]
    ensures c[i].addr == rs[i].addr && c[i].used && c[i].size >= size
  {
    var r := rs[i];
    if r.size - size < MinSplit then rs[i := r.(used := true)]
    else rs[..i] + [Region(r.addr, true, size), Region(r.addr + HeaderSize + size, false, r.size - size - HeaderSize)] + rs[i + 1..]
  }

  /**
   * alloc_from_node splits exactly when at least 24 bytes would be left over: then the
   * list gains a node, the carved region holds exactly `size` bytes and the remainder,
   * right behind it, is free with what is left after its header; otherwise the region
   * is used whole.
   */
  lemma CarvedSplit(rs: seq<Region>, i: nat, size: nat)
    requires i < |rs| && size <= rs[i].size
    ensures var c, r := Carved(rs, i, size), rs[i];
            && (|c| == |rs| + 1 <==> r.size - size >= MinSplit)
            && (r.size - size >= MinSplit ==>
                  c[i] == Region(r.addr, true, size) && Abuts(c[i], c[i + 1])
                  && !c[i + 1].used && c[i + 1].size == r.size - size - HeaderSize)
            && (r.size - size < MinSplit ==> c[i] == r.(used := true))
  {
  }

  /** Changing only the used bit of region i keeps the list tiled and its end. */
  lemma FlagTiled(rs: seq<Region>, i: nat, used: bool)
    requires Tiled(rs) && i < |rs|
    ensures Tiled(rs[i := rs[i].(used := used)])
    ensures End(rs[i := rs[i].(used := used)], 0) == End(rs, 0)
    ensures FirstAddr(rs[i := rs[i].(used := used)]) == FirstAddr(rs)
    ensures LastAddr(rs[i := rs[i].(used := used)]) == LastAddr(rs)
  {
    var u := rs[i].(used := used);
    Single(u);
    EndAt(rs, i);
    Splice(rs, i, i + 1, [u]);
    assert rs[i := u] == rs[..i] + [u] + rs[i + 1..];
  }

  /**
   * Carving a free region keeps the list tiled over the same bytes with no two free
   * neighbours; the carved region stays at its address, is used and holds at least
   * `size` bytes; exactly that region is added to the allocated ones.
   */
  lemma CarvedValid(rs: seq<Region>, i: nat, size: nat)
    requires Tiled(rs) && NoAdjacentFree(rs)
    requires i < |rs| && Fits(rs[i], size)
    ensures var c := Carved(rs, i, size);
            Tiled(c) && End(c, 0) == End(rs, 0) && NoAdjacentFree(c)
    ensures var c := Carved(rs, i, size);
            i < |c| && c[i].addr == rs[i].addr && c[i].used && c[i].size >= size
    ensures var c := Carved(rs, i, size);
            Allocated(c) == Allocated(rs) + {c[i]}
  {
    var c := Carved(rs, i, size);
    var r := rs[i];
    if r.size - size < MinSplit {
      var u := r.(used := true);
      FlagTiled(rs, i, true);
      forall k, l | 0 <= k && l == k + 1 && l < |c|
        ensures Apart(c[k], c[l])
      {
        assert Apart(rs[k], rs[l]);
      }
      AllocatedUpdate(rs, i, u);
    } else {
      var a := Region(r.addr, true, size);
      var b := Region(r.addr + HeaderSize + size, false, r.size - size - HeaderSize);
      var mid := [a, b];
      assert Chained(mid) by {
        forall k, l | 0 <= k && l == k + 1 && l < |mid|
          ensures Abuts(mid[k], mid[l])
        {
        }
      }
      EndAt(rs, i);
      Splice(rs, i, i + 1, mid);
      assert c == rs[..i] + mid + rs[i + 1..];
      forall k, l | 0 <= k && l == k + 1 && l < |c|
        ensures Apart(c[k], c[l])
      {
        if l < i {
          assert c[k] == rs[k] && c[l] == rs[l];
        } else if l == i {
          assert c[l] == a;
        } else if k == i {
          assert c[k] == a;
        } else if k == i + 1 {
          assert c[k] == b && c[l] == rs[i + 1];
          assert Apart(rs[i], rs[i + 1]);
        } else {
          assert c[k] == rs[k - 1] && c[l] == rs[l - 1];
        }
      }
      AllocatedSplit(rs, i, a, b);
    }
  }

  /** Marking free region i as the used region u adds u to the allocated set. */
  lemma AllocatedUpdate(rs: seq<Region>, i: nat, u: Region)
    requires i < |rs| && !rs[i].used && u.used
    ensures Allocated(rs[i := u]) == Allocated(rs) + {u}
  {
    var c := rs[i := u];
    forall x | x in Allocated(c)
      ensures x in Allocated(rs) + {u}
    {
      var k :| 0 <= k < |c| && c[k] == x;
    }
    forall x | x in Allocated(rs)
      ensures x in Allocated(c)
    {
      var k :| 0 <= k < |rs| && rs[k] == x;
      assert c[k] == x;
    }
    assert c[i] == u;
  }

  /** Splitting free region i into used a and free b adds a to the allocated set. */
  lemma AllocatedSplit(rs: seq<Region>, i: nat, a: Region, b: Region)
    requires i < |rs| && !rs[i].used && a.used && !b.used
    ensures Allocated(rs[..i] + [a, b] + rs[i + 1..]) == Allocated(rs) + {a}
  {
    var c := rs[..i] + [a, b] + rs[i + 1..];
    forall x | x in Allocated(c)
      ensures x in Allocated(rs) + {a}
    {
      var k :| 0 <= k < |c| && c[k] == x;
      if k < i {
        assert rs[k] == x;
      } else if k > i + 1 {
        assert rs[k - 1] == x;
      }
    }
    forall x | x in Allocated(rs)
      ensures x in Allocated(c)
    {
      var k :| 0 <= k < |rs| && rs[k] == x;
      if k < i {
        assert c[k] == x;
      } else {
        assert c[k + 1] == x;
      }
    }
    assert c[i] == a;
  }

  // ---------------------------------------------------------------------------
  // merge_forward and free

  /** The list after merge_forward(region i): region i absorbs the next header and payload. */
  function Merged(rs: seq<Region>, i: nat): (m: seq<Region>)
    requires i + 1 < |rs|
    ensures |m| + 1 == |rs| && m[..i] == rs[..i]
    ensures m[i].addr == rs[i].addr && m[i].used == rs[i].used && m[i].size > rs[i].size
  {
    rs[..i] + [rs[i].(size := rs[i].size + HeaderSize + rs[i + 1].size)] + rs[i + 2..]
  }

  /** Merging two neighbours keeps the list tiled over the same bytes. */
  lemma MergedTiled(rs: seq<Region>, i: nat)
    requires Tiled(rs) && i + 1 < |rs|
    ensures Tiled(Merged(rs, i)) && End(Merged(rs, i), 0) == End(rs, 0)
  {
    var m := rs[i].(size := rs[i].size + HeaderSize + rs[i + 1].size);
    Single(m);
    EndAt(rs, i + 1);
    assert Abuts(rs[i], rs[i + 1]);
    Splice(rs, i, i + 2, [m]);
  }

  /** Index of the first region at or after `from` whose payload starts at ptr. */
  function FindPayload(rs: seq<Region>, ptr: nat, from: nat): (r: Option<nat>)
    requires from <= |rs|
    decreases |rs| - from
    ensures r.Some? ==> from <= r.value < |rs| && rs[r.value].addr + HeaderSize == ptr
    ensures r.Some? ==> forall k :: from <= k < r.value ==> rs[k].addr + HeaderSize != ptr
    ensures r.None? ==> forall k :: from <= k < |rs| ==> rs[k].addr + HeaderSize != ptr
  {
    if from == |rs| then None
    else if rs[from].addr + HeaderSize == ptr then Some(from)
    else FindPayload(rs, ptr, from + 1)
  }

  /** First index of the stretch that freeing region i collapses: its free predecessor, if any. */
  function MergeLo(rs: seq<Region>, i: nat): nat
    requires i < |rs|
  {
    if i > 0 && !rs[i - 1].used then i - 1 else i
  }

  /** One past the stretch that freeing region i collapses: past its free successor, if any. */
  function MergeHi(rs: seq<Region>, i: nat): nat
    requires i < |rs|
  {
    if i + 1 < |rs| && !rs[i + 1].used then i + 2 else i + 1
  }

  /**
   * Region i freed and coalesced: it and its free neighbours become one free region
   * at the first one's address, covering all of their headers and payloads.
   */
  function Coalesced(rs: seq<Region>, i: nat): (c: seq<Region>)
    requires i < |rs|
    ensures MergeLo(rs, i) < |c| <= |rs| && c[..MergeLo(rs, i)] == rs[..MergeLo(rs, i)]
    ensures c[MergeLo(rs, i)].addr == rs[MergeLo(rs, i)].addr && !c[MergeLo(rs, i)].used
  {
    var lo, hi := MergeLo(rs, i), MergeHi(rs, i);
    SpanAtLeastHeader(rs[lo..hi]);
    rs[..lo] + [Region(rs[lo].addr, false, Span(rs[lo..hi]) - HeaderSize)] + rs[hi..]
  }

  /** Headers are 16 bytes, so a non-empty run spans at least that. */
  lemma SpanAtLeastHeader(rs: seq<Region>)
    requires rs != []
    ensures Span(rs) >= HeaderSize
  {
  }

  /** The list after free(ptr): unchanged unless ptr is the payload of a used region. */
  function Released(rs: seq<Region>, ptr: nat): (r: seq<Region>)
    ensures |r| <= |rs|
    ensures r != rs ==> FindPayload(rs, ptr, 0).Some? && rs[FindPayload(rs, ptr, 0).value].used
  {
    match FindPayload(rs, ptr, 0)
    case None => rs
    case Some(i) => if rs[i].used then Coalesced(rs, i) else rs
  }

  /** free keeps the list tiled over the same bytes with no two free neighbours. */
  lemma ReleasedValid(rs: seq<Region>, ptr: nat)
    requires Tiled(rs) && NoAdjacentFree(rs)
    ensures var r := Released(rs, ptr);
            Tiled(r) && End(r, 0) == End(rs, 0) && NoAdjacentFree(r)
  {
    match FindPayload(rs, ptr, 0)
    case None =>
    case Some(i) =>
      if rs[i].used {
        CoalescedTiled(rs, i);
        CoalescedSeparated(rs, i);
      }
  }

  /** free of an unknown pointer, or of a region already free, changes nothing. */
  lemma ReleasedNoop(rs: seq<Region>, ptr: nat)
    requires forall k :: 0 <= k < |rs| && rs[k].addr + HeaderSize == ptr ==> !rs[k].used
    ensures Released(rs, ptr) == rs
  {
  }

  /** A stretch of a chained list is chained. */
  lemma ChainedSlice(rs: seq<Region>, lo: nat, hi: nat)
    requires Chained(rs) && lo <= hi <= |rs|
    ensures Chained(rs[lo..hi])
  {
    var s := rs[lo..hi];
    forall k, l | 0 <= k && l == k + 1 && l < |s|
      ensures Abuts(s[k], s[l])
    {
      assert s[k] == rs[lo + k] && s[l] == rs[lo + l];
    }
  }

  /** Coalescing keeps the list tiled over the same bytes. */
  lemma CoalescedTiled(rs: seq<Region>, i: nat)
    requires Tiled(rs) && i < |rs|
    ensures var c := Coalesced(rs, i);
            Tiled(c) && End(c, 0) == End(rs, 0)
  {
    var lo, hi := MergeLo(rs, i), MergeHi(rs, i);
    var st := rs[lo..hi];
    var m := Region(rs[lo].addr, false, Span(st) - HeaderSize);
    assert Coalesced(rs, i) == rs[..lo] + [m] + rs[hi..];
    ChainedSlice(rs, lo, hi);
    ChainedSpan(st);
    assert st[0] == rs[lo] && st[|st| - 1] == rs[hi - 1];
    EndAt(rs, hi - 1);
    Single(m);
    Splice(rs, lo, hi, [m]);
  }

  /** Freeing region i leaves no two free neighbours: the merged stretch's outer neighbours are used. */
  lemma CoalescedSeparated(rs: seq<Region>, i: nat)
    requires NoAdjacentFree(rs) && i < |rs|
    ensures NoAdjacentFree(Coalesced(rs, i))
  {
    var c, lo, hi := Coalesced(rs, i), MergeLo(rs, i), MergeHi(rs, i);
    CoalescedShape(rs, i);
    if 0 < lo < i {
      assert Apart(rs[lo - 1], rs[lo]);
    }
    if hi == i + 2 && hi < |rs| {
      assert Apart(rs[i + 1], rs[hi]);
    }
    forall k, l | 0 <= k && l == k + 1 && l < |c|
      ensures Apart(c[k], c[l])
    {
      if l < lo {
        assert Apart(rs[k], rs[l]);
      } else if k > lo {
        var k', l' := k - lo - 1 + hi, l - lo - 1 + hi;
        assert Apart(rs[k'], rs[l']);
      }
    }
  }

  /**
   * The regions of Coalesced(rs, i) by index: the ones before the merged stretch, the
   * free merged region, then the ones after the stretch.
   */
  lemma CoalescedShape(rs: seq<Region>, i: nat)
    requires i < |rs|
    ensures var c, lo, hi := Coalesced(rs, i), MergeLo(rs, i), MergeHi(rs, i);
            |c| == |rs| - (hi - lo) + 1 && lo < |c| && !c[lo].used && c[lo].addr == rs[lo].addr
            && (forall k :: 0 <= k < lo ==> c[k] == rs[k])
            && (forall k :: lo < k < |c| ==> c[k] == rs[k - lo - 1 + hi])
  {
  }

  /** Freeing used region i takes exactly it out of the allocated set. */
  lemma CoalescedAllocated(rs: seq<Region>, i: nat)
    requires Chained(rs) && i < |rs| && rs[i].used
    ensures Allocated(Coalesced(rs, i)) == Allocated(rs) - {rs[i]}
  {
    CoalescedKeeps(rs, i);
    CoalescedDrops(rs, i);
  }

  /** Every used region other than i survives a free of region i. */
  lemma CoalescedKeeps(rs: seq<Region>, i: nat)
    requires i < |rs|
    ensures forall x :: x in Allocated(rs) && x != rs[i] ==> x in Allocated(Coalesced(rs, i))
  {
    var c, lo, hi := Coalesced(rs, i), MergeLo(rs, i), MergeHi(rs, i);
    CoalescedShape(rs, i);
    forall x | x in Allocated(rs) && x != rs[i]
      ensures x in Allocated(c)
    {
      var k :| 0 <= k < |rs| && rs[k] == x;
      if k < lo {
        assert c[k] == x;
      } else {
        assert c[k - hi + lo + 1] == x;
      }
    }
  }

  /** A free of region i adds no used region and leaves region i free. */
  lemma CoalescedDrops(rs: seq<Region>, i: nat)
    requires Chained(rs) && i < |rs|
    ensures forall x :: x in Allocated(Coalesced(rs, i)) ==> x in Allocated(rs) && x != rs[i]
  {
    var c, lo, hi := Coalesced(rs, i), MergeLo(rs, i), MergeHi(rs, i);
    CoalescedShape(rs, i);
    forall x | x in Allocated(c)
      ensures x in Allocated(rs) && x != rs[i]
    {
      var k :| 0 <= k < |c| && c[k] == x;
      var j := if k < lo then k else k - lo - 1 + hi;
      assert rs[j] == x;
      ChainedDistinct(rs, j, i);
    }
  }

  /** After freeing region i its header and payload lie inside one free region. */
  lemma CoalescedCovers(rs: seq<Region>, i: nat)
    requires Chained(rs) && i < |rs|
    ensures var c, lo := Coalesced(rs, i), MergeLo(rs, i);
            lo < |c| && !c[lo].used && c[lo].addr <= rs[i].addr
            && rs[i].addr + Extent(rs[i]) <= c[lo].addr + Extent(c[lo])
  {
    var lo, hi := MergeLo(rs, i), MergeHi(rs, i);
    var st := rs[lo..hi];
    ChainedSlice(rs, lo, hi);
    ChainedSpan(st);
    assert st[0] == rs[lo] && st[|st| - 1] == rs[hi - 1];
    if lo < i {
      ChainedOrdered(rs, lo, i);
    }
    if i + 1 < hi {
      ChainedOrdered(rs, i, i + 1);
    }
  }
  /** A run of one region spans its extent. */
  lemma SpanOne(x: Region)
    ensures Span([x]) == Extent(x)
  {
    assert [x][..0] == [];
  }

  /** A run of two regions spans the sum of their extents. */
  lemma SpanTwo(x: Region, y: Region)
    ensures Span([x, y]) == Extent(x) + Extent(y)
  {
    assert [x, y][..1] == [x];
    SpanOne(x);
  }

  /** A run of three regions spans their three extents. */
  lemma SpanThree(x: Region, y: Region, z: Region)
    ensures Span([x, y, z]) == Extent(x) + Extent(y) + Extent(z)
  {
    assert [x, y, z][..2] == [x, y];
    SpanTwo(x, y);
  }

  /** Region i with its used bit cleared: free's first write. */
  function Unmarked(rs: seq<Region>, i: nat): seq<Region>
    requires i < |rs|
  {
    rs[i := rs[i].(used := false)]
  }

  /** Free predecessor and free successor: merge_forward(prev) twice yields Coalesced. */
  lemma MergeBoth(rs: seq<Region>, i: nat)
    requires 0 < i && i + 1 < |rs| && !rs[i - 1].used && !rs[i + 1].used
    ensures var r2 := Merged(Unmarked(rs, i), i - 1);
            i < |r2| && !r2[i].used && Merged(r2, i - 1) == Coalesced(rs, i)
  {
    var r1 := Unmarked(rs, i);
    var r2 := Merged(r1, i - 1);
    assert r2[i] == rs[i + 1];
    assert rs[i - 1..i + 2] == [rs[i - 1], rs[i], rs[i + 1]];
    SpanThree(rs[i - 1], rs[i], rs[i + 1]);
    var m := Region(rs[i - 1].addr, false, Span(rs[i - 1..i + 2]) - HeaderSize);
    assert Merged(r2, i - 1) == rs[..i - 1] + [m] + rs[i + 2..];
  }

  /** Only the predecessor free: one merge_forward(prev) yields Coalesced. */
  lemma MergePrev(rs: seq<Region>, i: nat)
    requires 0 < i < |rs| && !rs[i - 1].used && !(i + 1 < |rs| && !rs[i + 1].used)
    ensures var r2 := Merged(Unmarked(rs, i), i - 1);
            !(i < |r2| && !r2[i].used) && r2 == Coalesced(rs, i)
  {
    var r2 := Merged(Unmarked(rs, i), i - 1);
    if i < |r2| {
      assert r2[i] == rs[i + 1];
    }
    assert rs[i - 1..i + 1] == [rs[i - 1], rs[i]];
    SpanTwo(rs[i - 1], rs[i]);
  }

  /** Predecessor used or absent, successor free: merge_forward(current) yields Coalesced. */
  lemma MergeNext(rs: seq<Region>, i: nat)
    requires i + 1 < |rs| && !(i > 0 && !rs[i - 1].used) && !rs[i + 1].used
    ensures Merged(Unmarked(rs, i), i) == Coalesced(rs, i)
  {
    assert rs[i..i + 2] == [rs[i], rs[i + 1]];
    SpanTwo(rs[i], rs[i + 1]);
  }

  /** Both neighbours used or absent: clearing the used bit is all, and is Coalesced. */
  lemma MergeNone(rs: seq<Region>, i: nat)
    requires i < |rs| && !(i > 0 && !rs[i - 1].used) && !(i + 1 < |rs| && !rs[i + 1].used)
    ensures Unmarked(rs, i) == Coalesced(rs, i)
  {
    assert rs[i..i + 1] == [rs[i]];
    SpanOne(rs[i]);
  }
  // ---------------------------------------------------------------------------
  // alloc as a whole

  /** What alloc leaves behind: the pointer it returns (None for null), the list and page_count. */
  datatype AllocState = AllocState(ptr: Option<nat>, regions: seq<Region>, pages: nat)

  /**
   * alloc(size) with grow outcomes `outcomes`, as a function of the list and page count:
   * the first fitting region carved in place; failing that, grows until the tail fits
   * and the tail carved; or, at the first grow that fails, null and the grows so far.
   */
  function AllocSpec(rs: seq<Region>, pages: nat, size: nat, outcomes: seq<GrowOutcome>): (a: AllocState)
    requires rs != []
    ensures pages <= a.pages <= pages + GrowsNeeded(rs, size)
    ensures FirstFit(rs, size, 0).Some? ==> a.pages == pages
  {
    match FirstFit(rs, size, 0)
    case Some(i) => AllocState(Some(rs[i].addr + HeaderSize), Carved(rs, i, size), pages)
    case None =>
      var n := GrowsNeeded(rs, size);
      match FirstFailure(outcomes, n, 0)
      case Some(f) => AllocState(None, GrowN(rs, pages, f), pages + f)
      case None =>
        GrowsNeededExact(rs, pages, size, n);
        var g := GrowN(rs, pages, n);
        AllocState(Some(g[|g| - 1].addr + HeaderSize), Carved(g, |g| - 1, size), pages + n)
  }

  /** AllocSpec when region i is the first fit. */
  lemma AllocSpecFit(rs: seq<Region>, pages: nat, size: nat, outcomes: seq<GrowOutcome>, i: nat)
    requires rs != [] && FirstFit(rs, size, 0) == Some(i)
    ensures AllocSpec(rs, pages, size, outcomes) == AllocState(Some(rs[i].addr + HeaderSize), Carved(rs, i, size), pages)
  {
  }

  /** AllocSpec when nothing fits and grow attempt f is the first to fail. */
  lemma AllocSpecFail(rs: seq<Region>, pages: nat, size: nat, outcomes: seq<GrowOutcome>, f: nat)
    requires rs != [] && FirstFit(rs, size, 0).None? && FirstFailure(outcomes, GrowsNeeded(rs, size), 0) == Some(f)
    ensures AllocSpec(rs, pages, size, outcomes) == AllocState(None, GrowN(rs, pages, f), pages + f)
  {
  }

  /** AllocSpec when nothing fits and every grow needed succeeds, leaving list g. */
  lemma AllocSpecGrown(rs: seq<Region>, pages: nat, size: nat, outcomes: seq<GrowOutcome>, g: seq<Region>)
    requires rs != [] && FirstFit(rs, size, 0).None? && FirstFailure(outcomes, GrowsNeeded(rs, size), 0).None?
    requires g == GrowN(rs, pages, GrowsNeeded(rs, size))
    ensures g != [] && size <= g[|g| - 1].size
    ensures AllocSpec(rs, pages, size, outcomes)
            == AllocState(Some(g[|g| - 1].addr + HeaderSize), Carved(g, |g| - 1, size), pages + GrowsNeeded(rs, size))
  {
    GrowsNeededExact(rs, pages, size, GrowsNeeded(rs, size));
  }

  /** alloc keeps the heap tiled over its mapped pages with no two free neighbours. */
  lemma AllocSpecValid(rs: seq<Region>, pages: nat, size: nat, outcomes: seq<GrowOutcome>)
    requires rs != [] && Tiled(rs) && End(rs, 0) == pages * PageSize && NoAdjacentFree(rs)
    ensures var s := AllocSpec(rs, pages, size, outcomes);
            Tiled(s.regions) && End(s.regions, 0) == s.pages * PageSize && NoAdjacentFree(s.regions)
            && s.pages >= pages
  {
    match FirstFit(rs, size, 0)
    case Some(i) =>
      AllocSpecFit(rs, pages, size, outcomes, i);
      CarvedValid(rs, i, size);
    case None =>
      var n := GrowsNeeded(rs, size);
      match FirstFailure(outcomes, n, 0)
      case Some(f) =>
        AllocSpecFail(rs, pages, size, outcomes, f);
        GrowNValid(rs, pages, f);
      case None =>
        var g := GrowN(rs, pages, n);
        AllocSpecGrown(rs, pages, size, outcomes, g);
        GrowNValid(rs, pages, n);
        CarvedValid(g, |g| - 1, size);
  }

  /**
   * free undoes alloc_from_node: the carved region's neighbours are used (a free region
   * has no free neighbour), so freeing its payload coalesces exactly the carved part,
   * and its split remainder if any, back into the region that was carved.
   */
  lemma CarveRelease(rs: seq<Region>, i: nat, size: nat)
    requires Tiled(rs) && NoAdjacentFree(rs)
    requires i < |rs| && Fits(rs[i], size)
    ensures Released(Carved(rs, i, size), rs[i].addr + HeaderSize) == rs
  {
    CarvedFound(rs, i, size);
    if rs[i].size - size < MinSplit {
      CarveReleaseWhole(rs, i, size);
    } else {
      CarveReleaseSplit(rs, i, size);
    }
  }

  /** In the carved list, free's walk stops at the carved region, which is used. */
  lemma CarvedFound(rs: seq<Region>, i: nat, size: nat)
    requires Tiled(rs) && NoAdjacentFree(rs)
    requires i < |rs| && Fits(rs[i], size)
    ensures var c := Carved(rs, i, size);
            FindPayload(c, rs[i].addr + HeaderSize, 0) == Some(i) && c[i].used
  {
    var c := Carved(rs, i, size);
    CarvedValid(rs, i, size);
    var f := FindPayload(c, rs[i].addr + HeaderSize, 0);
    if f.Some? && f.value != i {
      ChainedDistinct(c, f.value, i);
    }
  }

  /** A region carved whole goes back to its old self, its neighbours being used. */
  lemma CarveReleaseWhole(rs: seq<Region>, i: nat, size: nat)
    requires NoAdjacentFree(rs)
    requires i < |rs| && Fits(rs[i], size) && rs[i].size - size < MinSplit
    ensures Coalesced(Carved(rs, i, size), i) == rs
  {
    var c := Carved(rs, i, size);
    if i > 0 {
      assert Apart(rs[i - 1], rs[i]);
    }
    if i + 1 < |rs| {
      assert Apart(rs[i], rs[i + 1]);
    }
    assert MergeLo(c, i) == i && MergeHi(c, i) == i + 1;
    assert c[i..i + 1] == [c[i]];
    SpanOne(c[i]);
    assert c[..i] == rs[..i] && c[i + 1..] == rs[i + 1..];
    assert rs == rs[..i] + [rs[i]] + rs[i + 1..];
  }

  /** A split region absorbs its free remainder again and gets its old size back. */
  lemma CarveReleaseSplit(rs: seq<Region>, i: nat, size: nat)
    requires NoAdjacentFree(rs)
    requires i < |rs| && Fits(rs[i], size) && rs[i].size - size >= MinSplit
    ensures Coalesced(Carved(rs, i, size), i) == rs
  {
    var c := Carved(rs, i, size);
    if i > 0 {
      assert Apart(rs[i - 1], rs[i]);
    }
    if i + 1 < |rs| {
      assert Apart(rs[i], rs[i + 1]);
      assert c[i + 2] == rs[i + 1];
    }
    assert MergeLo(c, i) == i && MergeHi(c, i) == i + 2;
    assert c[i..i + 2] == [c[i], c[i + 1]];
    SpanTwo(c[i], c[i + 1]);
    assert c[..i] == rs[..i] && c[i + 2..] == rs[i + 1..];
    assert rs == rs[..i] + [rs[i]] + rs[i + 1..];
  }

  /** alloc served from an existing free region, then free of its pointer: the list is back. */
  lemma AllocFreeFit(rs: seq<Region>, pages: nat, size: nat, outcomes: seq<GrowOutcome>)
    requires rs != [] && Tiled(rs) && NoAdjacentFree(rs)
    requires FirstFit(rs, size, 0).Some?
    ensures var a := AllocSpec(rs, pages, size, outcomes);
            a.ptr.Some? && a.pages == pages && Released(a.regions, a.ptr.value) == rs
  {
    var i := FirstFit(rs, size, 0).value;
    AllocSpecFit(rs, pages, size, outcomes, i);
    CarveRelease(rs, i, size);
  }

  /**
   * alloc that had to grow, then free of its pointer: the list is the grown one, whose
   * free tail has its size back; only the grows remain.
   */
  lemma AllocFreeGrown(rs: seq<Region>, pages: nat, size: nat, outcomes: seq<GrowOutcome>)
    requires rs != [] && Tiled(rs) && End(rs, 0) == pages * PageSize && NoAdjacentFree(rs)
    requires FirstFit(rs, size, 0).None? && FirstFailure(outcomes, GrowsNeeded(rs, size), 0).None?
    ensures var a := AllocSpec(rs, pages, size, outcomes);
            a.ptr.Some? && Released(a.regions, a.ptr.value) == GrowN(rs, pages, GrowsNeeded(rs, size))
  {
    var n := GrowsNeeded(rs, size);
    var g := GrowN(rs, pages, n);
    AllocSpecGrown(rs, pages, size, outcomes, g);
    var t := |g| - 1;
    var a := AllocSpec(rs, pages, size, outcomes);
    assert a.ptr == Some(g[t].addr + HeaderSize) && a.regions == Carved(g, t, size);
    GrowsNeededExact(rs, pages, size, n);
    GrowNValid(rs, pages, n);
    CarveRelease(g, t, size);
  }

  /**
   * alloc returns null exactly when no region fits and one of the grows it needs
   * fails: it never fails while memory can still be mapped.
   */
  lemma AllocSpecNull(rs: seq<Region>, pages: nat, size: nat, outcomes: seq<GrowOutcome>)
    requires rs != []
    ensures AllocSpec(rs, pages, size, outcomes).ptr.None?
            <==> FirstFit(rs, size, 0).None? && FirstFailure(outcomes, GrowsNeeded(rs, size), 0).Some?
  {
  }

  /**
   * A non-null result is the payload of a used region of the new list with room for
   * `size` bytes.
   */
  lemma AllocSpecGrants(rs: seq<Region>, pages: nat, size: nat, outcomes: seq<GrowOutcome>)
    requires rs != [] && Tiled(rs) && End(rs, 0) == pages * PageSize && NoAdjacentFree(rs)
    ensures var s := AllocSpec(rs, pages, size, outcomes);
            s.ptr.Some? ==> exists k :: 0 <= k < |s.regions| && s.regions[k].used
                              && s.regions[k].addr + HeaderSize == s.ptr.value && s.regions[k].size >= size
  {
    match FirstFit(rs, size, 0)
    case Some(i) =>
      CarvedValid(rs, i, size);
      var c := Carved(rs, i, size);
      assert c[i].used && c[i].addr + HeaderSize == rs[i].addr + HeaderSize;
    case None =>
      var n := GrowsNeeded(rs, size);
      match FirstFailure(outcomes, n, 0)
      case Some(f) =>
      case None =>
        GrowsNeededExact(rs, pages, size, n);
        GrowNValid(rs, pages, n);
        var g := GrowN(rs, pages, n);
        CarvedValid(g, |g| - 1, size);
        var c := Carved(g, |g| - 1, size);
        assert c[|g| - 1].used && c[|g| - 1].addr == g[|g| - 1].addr;
  }

  /** The address head points at: the first region's, or null for an empty list. */
  function FirstAddr(rs: seq<Region>): (r: Option<nat>)
    ensures r.Some? <==> rs != []
  {
    if rs == [] then None else Some(rs[0].addr)
  }

  /** The address tail points at: the last region's, or null for an empty list. */
  function LastAddr(rs: seq<Region>): (r: Option<nat>)
    ensures r.Some? <==> rs != []
  {
    if rs == [] then None else Some(rs[|rs| - 1].addr)
  }

  /**
   * alloc_from_node keeps head, and moves tail to the split-off remainder exactly when
   * the carved region was the tail and was split.
   */
  lemma CarvedEnds(rs: seq<Region>, i: nat, size: nat)
    requires Chained(rs) && i < |rs| && size <= rs[i].size
    ensures var c := Carved(rs, i, size);
            FirstAddr(c) == FirstAddr(rs)
            && LastAddr(c) == if rs[i].size - size >= MinSplit && LastAddr(rs) == Some(rs[i].addr)
                              then Some(rs[i].addr + HeaderSize + size) else LastAddr(rs)
  {
    var last := |rs| - 1;
    if i < last {
      ChainedDistinct(rs, i, last);
    }
  }

  /** merge_forward(i) keeps head, and moves tail to region i exactly when region i + 1 was the tail. */
  lemma MergedEnds(rs: seq<Region>, i: nat)
    requires Chained(rs) && i + 1 < |rs|
    ensures var m := Merged(rs, i);
            FirstAddr(m) == FirstAddr(rs)
            && LastAddr(m) == if LastAddr(rs) == Some(rs[i + 1].addr) then Some(rs[i].addr) else LastAddr(rs)
  {
    var last := |rs| - 1;
    if i + 1 < last {
      ChainedDistinct(rs, i + 1, last);
    }
  }

  // ---------------------------------------------------------------------------
  // The heap state

  /** The statics of heap.cpp: the region list with its head and tail, and page_count. */
  class KernelHeap {
    /** The region headers in list order. */
    var regions: seq<Region>
    var head: Option<nat>
    var tail: Option<nat>
    var pageCount: nat

    /** The list tiles the mapped pages; head and tail are its first and last header. */
    ghost predicate Linked()
      reads this
    {
      && Tiled(regions)
      && End(regions, 0) == pageCount * PageSize
      && head == FirstAddr(regions)
      && tail == LastAddr(regions)
    }

    /** Between operations, additionally no two neighbouring regions are free. */
    ghost predicate Valid()
      reads this
    {
      Linked() && NoAdjacentFree(regions)
    }

    /** The zero-initialised statics: no regions, no pages. */
    constructor ()
      ensures Valid() && regions == [] && pageCount == 0
    {
      regions := [];
      head := None;
      tail := None;
      pageCount := 0;
    }

    /**
     * grow: on a mapped page the heap gets one page longer, either by extending a free
     * tail or by appending a free region at the old end; otherwise nothing changes.
     */
    method Grow(outcome: GrowOutcome) returns (ok: bool)
      requires Valid()
      modifies this
      ensures Valid()
      ensures ok <==> outcome == Mapped
      ensures ok ==> regions == Grown(old(regions), old(pageCount)) && pageCount == old(pageCount) + 1
      ensures !ok ==> regions == old(regions) && pageCount == old(pageCount)
      ensures !ok ==> head == old(head) && tail == old(tail)
    {
      if outcome == NoFrame {
        return false;
      }
      if outcome == MapFailed {
        // The frame alloc_pages returned is not given back.
        return false;
      }
      GrownValid(regions, pageCount);
      var n := |regions|;
      if tail.None? || regions[n - 1].used {
        var region := Region(pageCount * PageSize, false, PageSize - HeaderSize);
        if tail.None? {
          head := Some(region.addr);
          tail := Some(region.addr);
        } else {
          tail := Some(region.addr);
        }
        regions := regions + [region];
      } else {
        assert regions[n - 1 := regions[n - 1].(size := regions[n - 1].size + PageSize)]
            == regions[..n - 1] + [regions[n - 1].(size := regions[n - 1].size + PageSize)];
        regions := regions[n - 1 := regions[n - 1].(size := regions[n - 1].size + PageSize)];
      }
      pageCount := pageCount + 1;
      ok := true;
    }

    /** init: an empty heap, then one grow whose result is ignored. */
    method Init(outcome: GrowOutcome)
      modifies this
      ensures Valid()
      ensures outcome == Mapped ==> regions == [Region(0, false, PageSize - HeaderSize)] && pageCount == 1
      ensures outcome != Mapped ==> regions == [] && pageCount == 0
    {
      head := None;
      tail := None;
      pageCount := 0;
      regions := [];
      var _ := Grow(outcome);
    }

    /**
     * alloc_from_node: region i becomes used with at least `size` bytes, split off from
     * a free remainder when 24 or more bytes are left over; the remainder becomes the
     * tail if region i was. The result is the payload address.
     */
    method AllocFromNode(i: nat, size: nat) returns (ptr: nat)
      requires Valid() && i < |regions| && Fits(regions[i], size)
      modifies this
      ensures Valid() && pageCount == old(pageCount)
      ensures regions == Carved(old(regions), i, size)
      ensures ptr == old(regions[i].addr) + HeaderSize
    {
      var current := regions[i];
      ghost var rs := regions;
      CarvedValid(rs, i, size);
      CarvedEnds(rs, i, size);
      if current.size - size < MinSplit {
        regions := regions[i := current.(used := true)];
      } else {
        var free := Region(current.addr + HeaderSize + size, false, current.size - size - HeaderSize);
        regions := regions[..i] + [Region(current.addr, true, size), free] + regions[i + 1..];
        if tail == Some(current.addr) {
          tail := Some(free.addr);
        }
      }
      assert regions == Carved(rs, i, size);
      ptr := current.addr + HeaderSize;
    }

    /**
     * alloc: the first free region in list order with room for `size` is carved without
     * growing; if there is none the heap grows, one attempt per outcome, until its tail
     * fits (GrowsNeeded grows), and a failed grow makes the result null.
     */
    method Alloc(size: nat, outcomes: seq<GrowOutcome>) returns (ptr: Option<nat>)
      requires Valid() && regions != []
      modifies this
      ensures Valid()
      ensures AllocState(ptr, regions, pageCount) == AllocSpec(old(regions), old(pageCount), size, outcomes)
    {
      var current := 0;
      while current < |regions| && !Fits(regions[current], size)
        invariant 0 <= current <= |regions|
        invariant FirstFit(regions, size, 0) == FirstFit(regions, size, current)
      {
        current := current + 1;
      }
      if current < |regions| {
        AllocSpecFit(regions, pageCount, size, outcomes, current);
      } else {
        ghost var rs0, pc0 := regions, pageCount;
        ghost var fail := FirstFailure(outcomes, GrowsNeeded(rs0, size), 0);
        assert FirstFit(rs0, size, 0).None?;
        var ok := GrowUntilFits(size, outcomes);
        if !ok {
          AllocSpecFail(rs0, pc0, size, outcomes, fail.value);
          return None;
        }
        AllocSpecGrown(rs0, pc0, size, outcomes, regions);
        current := |regions| - 1;
      }
      var p := AllocFromNode(current, size);
      ptr := Some(p);
    }

    /**
     * The grow loop of alloc, entered when no region fits: grows, one attempt per
     * outcome, until the tail fits `size` (GrowsNeeded grows); false at the first grow
     * that fails.
     */
    method GrowUntilFits(size: nat, outcomes: seq<GrowOutcome>) returns (ok: bool)
      requires Valid() && regions != [] && !Fits(regions[|regions| - 1], size)
      modifies this
      ensures Valid()
      ensures var n := GrowsNeeded(old(regions), size);
              var f := FirstFailure(outcomes, n, 0);
              var j := if f.Some? then f.value else n;
              && (ok <==> f.None?)
              && regions == GrowN(old(regions), old(pageCount), j)
              && pageCount == old(pageCount) + j
    {
      ghost var rs0, pc0 := regions, pageCount;
      ghost var n := GrowsNeeded(rs0, size);
      GrowsNeededExact(rs0, pc0, size, 0);
      var attempt := 0;
      while true
        invariant Valid() && regions == GrowN(rs0, pc0, attempt) && pageCount == pc0 + attempt
        invariant attempt < n
        invariant FirstFailure(outcomes, n, 0) == FirstFailure(outcomes, n, attempt)
        decreases n - attempt
      {
        ok := GrowOnce(rs0, pc0, attempt, size, OutcomeAt(outcomes, attempt));
        if !ok {
          assert FirstFailure(outcomes, n, attempt) == Some(attempt);
          return;
        }
        attempt := attempt + 1;
        if Fits(regions[|regions| - 1], size) {
          break;
        }
      }
      assert attempt == n && FirstFailure(outcomes, n, n).None?;
    }

    /**
     * One turn of alloc's grow loop: after `attempt` grows from rs0, one more; on success
     * the new tail fits `size` exactly when enough grows have been made.
     */
    method GrowOnce(ghost rs0: seq<Region>, ghost pc0: nat, ghost attempt: nat, ghost size: nat, outcome: GrowOutcome)
      returns (ok: bool)
      requires rs0 != [] && Valid() && regions == GrowN(rs0, pc0, attempt) && pageCount == pc0 + attempt
      modifies this
      ensures Valid()
      ensures ok <==> outcome == Mapped
      ensures ok ==> regions == GrowN(rs0, pc0, attempt + 1) && pageCount == pc0 + attempt + 1
      ensures ok ==> regions != [] && (Fits(regions[|regions| - 1], size) <==> attempt + 1 >= GrowsNeeded(rs0, size))
      ensures !ok ==> regions == old(regions) && pageCount == old(pageCount)
    {
      ghost var before := regions;
      ok := Grow(outcome);
      if ok {
        GrowNStep(rs0, pc0, attempt, before, regions);
        GrowsNeededExact(rs0, pc0, size, attempt + 1);
      }
    }

    /**
     * merge_forward: region i absorbs the next region's header and payload and takes
     * over as tail if the next region was the tail.
     */
    method MergeForward(i: nat)
      requires Linked() && i + 1 < |regions|
      modifies this
      ensures Linked() && pageCount == old(pageCount)
      ensures regions == Merged(old(regions), i)
    {
      var region, next := regions[i], regions[i + 1];
      MergedTiled(regions, i);
      MergedEnds(regions, i);
      if tail == Some(next.addr) {
        tail := Some(region.addr);
      }
      regions := regions[..i] + [region.(size := region.size + HeaderSize + next.size)] + regions[i + 2..];
    }

    /**
     * free: finds the region whose payload starts at ptr, walking the list with a
     * trailing prev; an unknown pointer or a free region is left alone; otherwise the
     * region is freed and merged with a free predecessor and then a free successor, or
     * else with a free successor.
     */
    method Free(ptr: nat)
      requires Valid() && regions != []
      modifies this
      ensures Valid() && pageCount == old(pageCount)
      ensures regions == Released(old(regions), ptr)
    {
      var prev: Option<nat> := None;
      var current := 0;
      while current < |regions| && regions[current].addr + HeaderSize != ptr
        invariant 0 <= current <= |regions|
        invariant prev == if current == 0 then None else Some(current - 1)
        invariant FindPayload(regions, ptr, 0) == FindPayload(regions, ptr, current)
      {
        prev := Some(current);
        current := current + 1;
      }
      if current == |regions| || !regions[current].used {
        assert FindPayload(regions, ptr, 0) == FindPayload(regions, ptr, current);
        return;
      }
      ghost var rs := regions;
      assert FindPayload(rs, ptr, 0) == Some(current);
      assert Released(rs, ptr) == Coalesced(rs, current);
      CoalescedSeparated(rs, current);
      FlagTiled(regions, current, false);
      regions := regions[current := regions[current].(used := false)];
      assert regions == Unmarked(rs, current);
      if prev.Some? && !regions[prev.value].used {
        if current + 1 < |rs| && !rs[current + 1].used {
          MergeBoth(rs, current);
        } else {
          MergePrev(rs, current);
        }
        MergeForward(prev.value);
        if prev.value + 1 < |regions| && !regions[prev.value + 1].used {
          MergeForward(prev.value);
        }
        assert regions == Coalesced(rs, current);
      } else if current + 1 < |regions| && !regions[current + 1].used {
        MergeNext(rs, current);
        MergeForward(current);
        assert regions == Coalesced(rs, current);
      } else {
        MergeNone(rs, current);
      }
      assert regions == Coalesced(rs, current);
    }
  }
}
