/**
 * The physical page-frame allocator of src/memory/physical.cpp.
 *
 * Frame i (4096 bytes) is tracked by bit i % 64 of bitmap word i / 64; a set bit
 * means "used". The allocator keeps the bitmap and the counters total_pages,
 * used_pages and entry_count as process-wide state, modelled here as the fields of
 * one FrameAllocator object. The ghost sequence Frames is the bit-per-frame view
 * of the bitmap words.
 */
module Physical {
  import opened Wrappers
  import opened BitWord

  const PageSize: nat := 4096
  const WordBytes: nat := 8
  /** 2^32: the counters are uint32 in the source. */
  const U32: nat := 0x1_0000_0000
  /** Value of entries_page_index while no home for the bitmap has been found. */
  const NoPage: nat := 0xFFFF_FFFF

  /**
   * One uint64 bitmap word as its flags, bit 0 first (BitWord.Flags). The word
   * operations of the source act on it as BitWord proves: `|= 1ull << k` is
   * `[k := true]`, `& ~(1ull << k)` is `[k := false]`, `(entry & 1u) == 0` is
   * `!entry[0]`, `entry >>= 1` is `entry[1..] + [false]` and a word of 0xFF bytes
   * is AllUsed.
   */
  type Word = seq<bool>

  /** The word memset(0xFF) leaves: every frame used. */
  function AllUsed(): (w: Word)
    ensures w == Flags(AllOnes)
  {
    AllOnesFlags();
    seq(WordBits, _ => true)
  }

  /** Memory-map entry types, as the boot protocol reports them. */
  datatype MemoryType =
    | Usable
    | Reserved
    | AcpiReclaimable
    | AcpiNvs
    | BadMemory
    | BootloaderReclaimable
    | ExecutableAndModules
    | Framebuffer
    | AcpiTables

  /** One memory-map entry, in page units. */
  datatype MemoryRange = MemoryRange(kind: MemoryType, firstPage: nat, pageCount: nat)

  function RangeEnd(r: MemoryRange): nat {
    r.firstPage + r.pageCount
  }

  function Min(a: nat, b: nat): nat {
    if a < b then a else b
  }

  function CeilDiv(a: nat, b: nat): nat
    requires b > 0
  {
    (a + b - 1) / b
  }

  /** uint32 wrap-around: values already in range are kept. */
  function Wrap32(x: int): (r: nat)
    ensures r < U32
    ensures 0 <= x < U32 ==> r == x
  {
    x % U32
  }

  lemma Wrap32Add(a: int, b: int)
    ensures Wrap32(Wrap32(a) + b) == Wrap32(a + b)
    ensures Wrap32(Wrap32(a) - b) == Wrap32(a - b)
  {
    var q := a / U32;
    assert a == q * U32 + Wrap32(a);
    WrapShift(a + b, q);
    WrapShift(a - b, q);
  }

  /** Two uint32 steps compose: wrapping a then adding b is wrapping a + b. */
  lemma Wrap32Then(a: int, b: int, u: nat, v: nat)
    requires u == Wrap32(a) && v == Wrap32(u + b)
    ensures v == Wrap32(a + b)
  {
    Wrap32Add(a, b);
  }

  lemma WrapShift(x: int, q: int)
    ensures Wrap32(x - q * U32) == Wrap32(x)
  {
    var y := x - q * U32;
    assert x == y + q * U32;
    var r := y % U32;
    assert y == (y / U32) * U32 + r;
    assert x == (y / U32 + q) * U32 + r;
  }

  // ---------------------------------------------------------------------------
  // The frame view: sequences of "used" flags

  /** s with frames [first, first + n) set to v. */
  function Fill(s: seq<bool>, first: nat, n: nat, v: bool): (r: seq<bool>)
    requires first + n <= |s|
    ensures |r| == |s|
    ensures forall k :: 0 <= k < |s| ==> r[k] == if first <= k < first + n then v else s[k]
  {
    seq(|s|, k requires 0 <= k < |s| => if first <= k < first + n then v else s[k])
  }

  /** Frames [f, f + n) exist and are all clear. */
  predicate FreeRun(s: seq<bool>, f: nat, n: nat) {
    f + n <= |s| && forall k :: f <= k < f + n ==> !s[k]
  }

  /** Frames [f, f + n) exist and are all set. */
  predicate UsedRun(s: seq<bool>, f: nat, n: nat) {
    f + n <= |s| && forall k :: f <= k < f + n ==> s[k]
  }

  /** The lowest f >= from starting a free run of n frames. */
  function FirstFitFrom(s: seq<bool>, n: nat, from: nat): (r: Option<nat>)
    decreases |s| - from
    ensures r.Some? ==> from <= r.value && FreeRun(s, r.value, n)
    ensures r.Some? ==> forall g :: from <= g < r.value ==> !FreeRun(s, g, n)
    ensures r.None? ==> forall g :: from <= g ==> !FreeRun(s, g, n)
  {
    if from + n > |s| then None
    else if FreeRun(s, from, n) then Some(from)
    else FirstFitFrom(s, n, from + 1)
  }

  /** First fit: the lowest-index run of n clear frames, if any. */
  function FirstFit(s: seq<bool>, n: nat): Option<nat> {
    FirstFitFrom(s, n, 0)
  }

  /** FirstFit returns exactly the lowest start of a free run; None exactly when there is none. */
  lemma FirstFitIsLowest(s: seq<bool>, n: nat, f: nat)
    ensures FirstFit(s, n) == Some(f) <==> FreeRun(s, f, n) && forall g :: 0 <= g < f ==> !FreeRun(s, g, n)
  {
    var r := FirstFit(s, n);
    if FreeRun(s, f, n) && (forall g :: 0 <= g < f ==> !FreeRun(s, g, n)) {
      assert r.Some?;
      assert !(r.value < f);
      assert !(f < r.value);
    }
  }

  /** Number of used frames. */
  function UsedCount(s: seq<bool>): (c: nat)
    ensures c <= |s|
  {
    if s == [] then 0 else (if s[0] then 1 else 0) + UsedCount(s[1..])
  }

  lemma {:induction false} UsedCountUpdate(s: seq<bool>, k: nat, v: bool)
    requires k < |s|
    ensures UsedCount(s[k := v]) + (if s[k] then 1 else 0) == UsedCount(s) + (if v then 1 else 0)
  {
    if k > 0 {
      UsedCountUpdate(s[1..], k - 1, v);
      assert s[k := v][1..] == s[1..][k - 1 := v];
    } else {
      assert s[k := v][1..] == s[1..];
    }
  }

  /**
   * Marking a run of n clear frames used raises the used-frame count by exactly n;
   * marking a run of n used frames clear lowers it by exactly n.
   */
  lemma {:induction false} FillUsedCount(s: seq<bool>, f: nat, n: nat, v: bool)
    requires if v then FreeRun(s, f, n) else UsedRun(s, f, n)
    ensures UsedCount(Fill(s, f, n, v)) == if v then UsedCount(s) + n else UsedCount(s) - n
  {
    if n == 0 {
      assert Fill(s, f, 0, v) == s;
    } else {
      var t := Fill(s, f, n - 1, v);
      FillUsedCount(s, f, n - 1, v);
      assert Fill(s, f, n, v) == t[f + n - 1 := v];
      UsedCountUpdate(t, f + n - 1, v);
    }
  }

  // ---------------------------------------------------------------------------
  // Initialisation inputs

  /** Highest first_page + page_count over the RAM-typed ranges (0 if none). */
  function MaxRamEnd(m: seq<MemoryRange>, isRam: MemoryType -> bool): (r: nat)
    ensures forall i :: 0 <= i < |m| && isRam(m[i].kind) ==> RangeEnd(m[i]) <= r
    ensures r == 0 || exists i :: 0 <= i < |m| && isRam(m[i].kind) && RangeEnd(m[i]) == r
  {
    if m == [] then 0
    else
      var prev := MaxRamEnd(m[..|m| - 1], isRam);
      var last := m[|m| - 1];
      assert forall i :: 0 <= i < |m| - 1 ==> m[..|m| - 1][i] == m[i];
      if isRam(last.kind) && RangeEnd(last) > prev then RangeEnd(last) else prev
  }

  /** Pages needed to hold `words` 64-bit bitmap words. */
  function BitmapPages(words: nat): nat {
    CeilDiv(words * WordBytes, PageSize)
  }

  /** A range the bitmap may be placed in: usable, not at frame 0, large enough. */
  predicate CanHost(r: MemoryRange, pages: nat) {
    r.kind == Usable && r.firstPage >= 1 && r.pageCount >= pages
  }

  /** Index of the first range at or after `from` that can host the bitmap. */
  function FirstHost(m: seq<MemoryRange>, pages: nat, from: nat): (r: Option<nat>)
    requires from <= |m|
    decreases |m| - from
    ensures r.Some? ==> from <= r.value < |m| && CanHost(m[r.value], pages)
    ensures r.Some? ==> forall j :: from <= j < r.value ==> !CanHost(m[j], pages)
    ensures r.None? ==> forall j :: from <= j < |m| ==> !CanHost(m[j], pages)
  {
    if from == |m| then None
    else if CanHost(m[from], pages) then Some(from)
    else FirstHost(m, pages, from + 1)
  }

  /** Range r is usable and contains frame i. */
  predicate Covers(r: MemoryRange, i: nat) {
    r.kind == Usable && r.firstPage <= i < r.firstPage + r.pageCount
  }

  /** Frame i lies in some usable range of the map. */
  predicate UsableFrame(m: seq<MemoryRange>, i: nat) {
    exists j :: 0 <= j < |m| && Covers(m[j], i)
  }

  /** Frame k is usable in the first i + 1 ranges iff it is in the first i or in range i. */
  lemma UsableFrameStep(m: seq<MemoryRange>, i: nat, k: nat)
    requires i < |m|
    ensures UsableFrame(m[..i + 1], k) <==> UsableFrame(m[..i], k) || Covers(m[i], k)
  {
    if Covers(m[i], k) {
      assert m[..i + 1][i] == m[i];
    }
    if UsableFrame(m[..i + 1], k) {
      var j :| 0 <= j < i + 1 && Covers(m[..i + 1][j], k);
      if j < i {
        assert m[..i][j] == m[..i + 1][j];
      }
    }
    if UsableFrame(m[..i], k) {
      var j :| 0 <= j < i && Covers(m[..i][j], k);
      assert m[..i + 1][j] == m[..i][j];
    }
  }

  /**
   * One step of init's pass over the usable ranges: clearing range i (clamped to
   * total frames) extends "clear iff usable below total" from the first i ranges to
   * the first i + 1.
   */
  lemma UsablePassStep(m: seq<MemoryRange>, i: nat, before: seq<bool>, after: seq<bool>, total: nat)
    requires i < |m| && total <= |before|
    requires forall k :: 0 <= k < |before| ==> (!before[k] <==> k < total && UsableFrame(m[..i], k))
    requires m[i].kind != Usable || m[i].firstPage >= total ==> after == before
    requires m[i].kind == Usable && m[i].firstPage < total ==>
               after == Fill(before, m[i].firstPage, Clamped(m[i].firstPage, m[i].pageCount, total), false)
    ensures forall k :: 0 <= k < |after| ==> (!after[k] <==> k < total && UsableFrame(m[..i + 1], k))
  {
    forall k | 0 <= k < |after|
      ensures !after[k] <==> k < total && UsableFrame(m[..i + 1], k)
    {
      UsableFrameStep(m, i, k);
      assert !after[k] <==> !before[k] || (k < total && Covers(m[i], k));
    }
  }

  /**
   * The same step for used_pages: it follows ClearedByInit, and with disjoint usable
   * ranges it keeps counting the used frames below total.
   */
  lemma UsablePassCount(m: seq<MemoryRange>, i: nat, before: seq<bool>, after: seq<bool>, total: nat, u: nat, v: nat)
    requires i < |m| && total <= |before| && u < U32
    requires forall k :: 0 <= k < |before| ==> (!before[k] <==> k < total && UsableFrame(m[..i], k))
    requires m[i].kind != Usable || m[i].firstPage >= total ==> after == before
    requires m[i].kind == Usable && m[i].firstPage < total ==>
               after == Fill(before, m[i].firstPage, Clamped(m[i].firstPage, m[i].pageCount, total), false)
    requires u == Wrap32(total - ClearedByInit(m[..i], total))
    requires m[i].kind != Usable ==> v == u
    requires m[i].kind == Usable ==> v == Wrap32(u - Clamped(m[i].firstPage, m[i].pageCount, total))
    ensures v == Wrap32(total - ClearedByInit(m[..i + 1], total))
    ensures UsableDisjoint(m) && u == UsedCount(before[..total]) ==> v == UsedCount(after[..total])
  {
    var n := if m[i].kind == Usable then Clamped(m[i].firstPage, m[i].pageCount, total) else 0;
    assert m[..i + 1][..i] == m[..i];
    assert ClearedByInit(m[..i + 1], total) == ClearedByInit(m[..i], total) + n;
    Wrap32Then(total - ClearedByInit(m[..i], total), -n, u, v);
    if UsableDisjoint(m) && m[i].kind == Usable && m[i].firstPage < total {
      ClearRangeCount(m, i, before, total);
    }
  }

  /** No frame lies in two usable ranges of the map. */
  ghost predicate UsableDisjoint(m: seq<MemoryRange>) {
    forall i, j, k :: 0 <= i < j < |m| && Covers(m[i], k) ==> !Covers(m[j], k)
  }

  /** The bitmap's pages [host, host + pages) start a usable range of the map and fit in it. */
  ghost predicate HostRange(m: seq<MemoryRange>, host: nat, pages: nat) {
    exists j :: 0 <= j < |m| && m[j].kind == Usable && m[j].firstPage == host && pages <= m[j].pageCount
  }

  /**
   * The frames init leaves free: those below `total` that lie in a usable range, except
   * the bitmap's own frames [host, host + pages).
   */
  ghost predicate InitFree(frames: seq<bool>, m: seq<MemoryRange>, total: nat, host: nat, pages: nat) {
    forall i :: 0 <= i < |frames| ==> (!frames[i] <==> i < total && UsableFrame(m, i) && !(host <= i < host + pages))
  }

  /** Frames that mark_pages(first, count, false) actually clears, given total frames. */
  function Clamped(first: nat, count: nat, total: nat): (c: nat)
    ensures c <= count
    ensures c == 0 || first + c <= total
    ensures first < total ==> c == count || first + c == total
  {
    if first >= total then 0 else Min(count, total - first)
  }

  /** Frames cleared by init's pass over the usable ranges (with overlaps counted twice). */
  function ClearedByInit(m: seq<MemoryRange>, total: nat): nat {
    if m == [] then 0
    else
      var last := m[|m| - 1];
      ClearedByInit(m[..|m| - 1], total)
        + (if last.kind == Usable then Clamped(last.firstPage, last.pageCount, total) else 0)
  }

  /**
   * used_pages after init: every frame below `total`, less what the usable-range pass
   * cleared, plus the bitmap's own frames set again, modulo 2^32.
   */
  function UsedAfterInit(m: seq<MemoryRange>, total: nat, host: nat, pages: nat): nat {
    Wrap32(total - ClearedByInit(m, total) + Clamped(host, pages, total))
  }

  /** A run of set frames counts once per frame. */
  lemma {:induction false} UsedCountAllSet(s: seq<bool>)
    requires forall k :: 0 <= k < |s| ==> s[k]
    ensures UsedCount(s) == |s|
  {
    if s != [] {
      UsedCountAllSet(s[1..]);
    }
  }

  /**
   * init's pass over range i, when no earlier usable range shares a frame with it:
   * every frame it clears is still used, so the used count drops by the clamped length.
   */
  lemma ClearRangeCount(m: seq<MemoryRange>, i: nat, s: seq<bool>, total: nat)
    requires i < |m| && UsableDisjoint(m) && m[i].kind == Usable
    requires total <= |s| && m[i].firstPage < total
    requires forall k :: 0 <= k < |s| ==> (!s[k] <==> k < total && UsableFrame(m[..i], k))
    ensures var n := Clamped(m[i].firstPage, m[i].pageCount, total);
            UsedCount(Fill(s, m[i].firstPage, n, false)[..total]) == UsedCount(s[..total]) - n
  {
    var first, n := m[i].firstPage, Clamped(m[i].firstPage, m[i].pageCount, total);
    forall k | first <= k < first + n
      ensures s[..total][k]
    {
      if UsableFrame(m[..i], k) {
        var j :| 0 <= j < i && Covers(m[..i][j], k);
        assert Covers(m[j], k) && Covers(m[i], k);
      }
    }
    assert Fill(s, first, n, false)[..total] == Fill(s[..total], first, n, false);
    FillUsedCount(s[..total], first, n, false);
  }

  /**
   * init's marking of the bitmap's own pages: they lie in a usable range, so after the
   * usable pass they are clear and the used count rises by the clamped length.
   */
  lemma HostClaimCount(m: seq<MemoryRange>, host: nat, pages: nat, s: seq<bool>, total: nat)
    requires HostRange(m, host, pages)
    requires total <= |s| && host < total
    requires forall k :: 0 <= k < |s| ==> (!s[k] <==> k < total && UsableFrame(m, k))
    ensures var n := Clamped(host, pages, total);
            UsedCount(Fill(s, host, n, true)[..total]) == UsedCount(s[..total]) + n
  {
    var n := Clamped(host, pages, total);
    var j :| 0 <= j < |m| && m[j].kind == Usable && m[j].firstPage == host && pages <= m[j].pageCount;
    forall k | host <= k < host + n
      ensures !s[..total][k]
    {
      assert Covers(m[j], k);
    }
    assert Fill(s, host, n, true)[..total] == Fill(s[..total], host, n, true);
    FillUsedCount(s[..total], host, n, true);
  }

  /** The first loop of init: the highest end page of a RAM range. */
  method RamTotal(memoryMap: seq<MemoryRange>, isRam: MemoryType -> bool) returns (total: nat)
    requires forall i :: 0 <= i < |memoryMap| ==> RangeEnd(memoryMap[i]) < U32
    ensures total == MaxRamEnd(memoryMap, isRam) && total < U32
  {
    total := 0;
    var i := 0;
    while i < |memoryMap|
      invariant 0 <= i <= |memoryMap|
      invariant total == MaxRamEnd(memoryMap[..i], isRam)
    {
      var r := memoryMap[i];
      assert memoryMap[..i + 1][..i] == memoryMap[..i];
      if isRam(r.kind) && r.firstPage + r.pageCount > total {
        total := r.firstPage + r.pageCount;
      }
      i := i + 1;
    }
    assert memoryMap[..i] == memoryMap;
  }

  /** The second loop of init: the first page of the first range that can host the bitmap, or the sentinel. */
  method FindHostPage(memoryMap: seq<MemoryRange>, pages: nat) returns (page: nat)
    ensures var h := FirstHost(memoryMap, pages, 0);
            page == if h.Some? then memoryMap[h.value].firstPage else NoPage
  {
    page := NoPage;
    var i := 0;
    while i < |memoryMap|
      invariant 0 <= i <= |memoryMap|
      invariant FirstHost(memoryMap, pages, 0) == FirstHost(memoryMap, pages, i)
    {
      var r := memoryMap[i];
      if r.kind == Usable && r.firstPage >= 1 && r.pageCount >= pages {
        page := r.firstPage;
        return;
      }
      i := i + 1;
    }
  }

  /** Flag j of word i of ws is frame i * 64 + j of fs. */
  ghost predicate Mirrors(ws: seq<Word>, fs: seq<bool>) {
    && |fs| == WordBits * |ws|
    && (forall i :: 0 <= i < |ws| ==> |ws[i]| == WordBits)
    && forall i, j :: 0 <= i < |ws| && 0 <= j < WordBits ==> ws[i][j] == fs[i * WordBits + j]
  }

  /** Marking flag index % 64 of word index / 64 marks frame index in the view. */
  lemma MirrorsUpdate(ws: seq<Word>, fs: seq<bool>, index: nat, used: bool)
    requires Mirrors(ws, fs) && index < |fs|
    ensures index / WordBits < |ws|
    ensures Mirrors(ws[index / WordBits := ws[index / WordBits][index % WordBits := used]], fs[index := used])
  {
    var w, b := index / WordBits, index % WordBits;
    var ws', fs' := ws[w := ws[w][b := used]], fs[index := used];
    forall i, j | 0 <= i < |ws'| && 0 <= j < WordBits
      ensures ws'[i][j] == fs'[i * WordBits + j]
    {
      SameSlot(i * WordBits + j, index);
      assert (i * WordBits + j) / WordBits == i && (i * WordBits + j) % WordBits == j;
    }
  }

  lemma SameSlot(i: nat, j: nat)
    ensures i == j <==> i / WordBits == j / WordBits && i % WordBits == j % WordBits
  {
  }

  /**
   * The scan's word after j shifts: its low 64 - j flags are flags j.. of the
   * bitmap word, so flag 0 is flag j, and one more shift moves on to flag j + 1.
   */
  lemma ShiftView(entry: Word, word: Word, j: nat)
    requires |entry| == |word| == WordBits && j < WordBits
    requires entry[..WordBits - j] == word[j..]
    ensures entry[0] == word[j]
    ensures (entry[1..] + [false])[..WordBits - (j + 1)] == word[j + 1..]
  {
    assert entry[0] == entry[..WordBits - j][0];
    assert (entry[1..] + [false])[..WordBits - (j + 1)] == entry[..WordBits - j][1..];
  }

  // ---------------------------------------------------------------------------
  // The allocator state

  class FrameAllocator {
    var entries: array<Word>
    var entryCount: nat
    var totalPages: nat
    var usedPages: nat
    /** Frames[i] == bit i of the bitmap. */
    ghost var Frames: seq<bool>

    /** The bitmap words and the frame view agree. */
    ghost predicate Coherent()
      reads this, entries
    {
      && entries.Length == entryCount
      && Mirrors(entries[..], Frames)
    }

    /** The allocator invariant: coherent bitmap sized for total_pages, padding bits set. */
    ghost predicate Valid()
      reads this, entries
    {
      && Coherent()
      && entryCount == CeilDiv(totalPages, WordBits)
      && totalPages <= |Frames|
      && totalPages < U32
      && usedPages < U32
      && forall i :: totalPages <= i < |Frames| ==> Frames[i]
    }

    /** used_pages counts exactly the used frames below total_pages. */
    ghost predicate Consistent()
      reads this
    {
      totalPages <= |Frames| && usedPages == UsedCount(Frames[..totalPages])
    }

    /** The zero-initialised statics before init runs. */
    constructor ()
      ensures Valid() && Consistent()
      ensures totalPages == 0 && usedPages == 0 && entryCount == 0 && Frames == []
    {
      entries := new Word[0];
      entryCount := 0;
      totalPages := 0;
      usedPages := 0;
      Frames := [];
    }

    /** mark_page: sets or clears bit index % 64 of word index / 64 and nothing else. */
    method MarkPage(index: nat, used: bool)
      requires Coherent() && index < |Frames|
      modifies entries, this`Frames
      ensures Coherent()
      ensures Frames == old(Frames)[index := used]
      ensures entries[..] == old(entries[..])[index / WordBits := old(entries[index / WordBits])[index % WordBits := used]]
    {
      MirrorsUpdate(entries[..], Frames, index, used);
      var w := index / WordBits;
      if used {
        entries[w] := entries[w][index % WordBits := true];
      } else {
        entries[w] := entries[w][index % WordBits := false];
      }
      Frames := Frames[index := used];
    }

    /**
     * mark_pages: nothing happens when first >= total_pages; otherwise count is clamped
     * to total_pages - first, exactly those frames get the flag, and used_pages moves by
     * the clamped count (with uint32 wrap-around).
     */
    method MarkPages(first: nat, count: nat, used: bool)
      requires Valid()
      modifies entries, this`Frames, this`usedPages
      ensures Valid()
      ensures first >= totalPages ==> Frames == old(Frames)
      ensures first < totalPages ==> Frames == Fill(old(Frames), first, Clamped(first, count, totalPages), used)
      ensures var n := Clamped(first, count, totalPages);
              usedPages == Wrap32(if used then old(usedPages) + n else old(usedPages) - n)
      ensures forall i :: totalPages <= i < |Frames| ==> Frames[i] == old(Frames[i])
    {
      if first >= totalPages {
        return;
      }
      var n := Min(count, totalPages - first);
      var i := 0;
      while i < n
        invariant 0 <= i <= n
        invariant Coherent() && |Frames| == |old(Frames)| && usedPages == old(usedPages)
        invariant forall k :: 0 <= k < |Frames| ==> Frames[k] == if first <= k < first + i then used else old(Frames[k])
      {
        MarkPage(first + i, used);
        i := i + 1;
      }
      assert Frames == Fill(old(Frames), first, n, used);
      if used {
        usedPages := Wrap32(usedPages + n);
      } else {
        usedPages := Wrap32(usedPages - n);
      }
    }

    /**
     * init: total_pages is the highest end of a RAM range; the bitmap goes into the first
     * usable range at frame >= 1 large enough for it (none: fatal, `ok` is false); every
     * frame starts used, usable ranges are cleared, then the bitmap's own frames are set.
     */
    method Init(memoryMap: seq<MemoryRange>, isRam: MemoryType -> bool) returns (ok: bool)
      requires forall i :: 0 <= i < |memoryMap| ==> RangeEnd(memoryMap[i]) < U32
      modifies this
      ensures totalPages == MaxRamEnd(memoryMap, isRam)
      ensures entryCount == CeilDiv(totalPages, WordBits)
      ensures ok <==> var h := FirstHost(memoryMap, BitmapPages(entryCount), 0);
                      h.Some? && memoryMap[h.value].firstPage != NoPage
      ensures ok ==> Valid() && fresh(entries)
      ensures ok ==>
                var host := memoryMap[FirstHost(memoryMap, BitmapPages(entryCount), 0).value].firstPage;
                var hostPages := BitmapPages(entryCount);
                && InitFree(Frames, memoryMap, totalPages, host, hostPages)
                && usedPages == UsedAfterInit(memoryMap, totalPages, host, hostPages)
      ensures ok && UsableDisjoint(memoryMap) ==> Consistent()
    {
      totalPages := RamTotal(memoryMap, isRam);
      entryCount := CeilDiv(totalPages, WordBits);
      var hostPages := BitmapPages(entryCount);
      var hostPage := FindHostPage(memoryMap, hostPages);
      if hostPage == NoPage {
        // utils::panic: the kernel halts.
        return false;
      }
      ghost var h := FirstHost(memoryMap, hostPages, 0);
      assert h.Some? && hostPage == memoryMap[h.value].firstPage;
      assert CanHost(memoryMap[h.value], hostPages);
      assert HostRange(memoryMap, hostPage, hostPages);
      Populate(memoryMap, hostPage, hostPages);
      ok := true;
    }

    /**
     * The bitmap-writing steps of init once the host range is known: every frame used,
     * the usable ranges cleared, the bitmap's own frames set again.
     */
    method Populate(memoryMap: seq<MemoryRange>, host: nat, hostPages: nat)
      requires totalPages < U32 && entryCount == CeilDiv(totalPages, WordBits)
      modifies this
      ensures Valid() && fresh(entries)
      ensures totalPages == old(totalPages) && entryCount == old(entryCount)
      ensures InitFree(Frames, memoryMap, totalPages, host, hostPages)
      ensures usedPages == UsedAfterInit(memoryMap, totalPages, host, hostPages)
      ensures UsableDisjoint(memoryMap) && HostRange(memoryMap, host, hostPages) ==> Consistent()
    {
      ResetBitmap();
      FreeUsable(memoryMap);
      ghost var cleared := totalPages - ClearedByInit(memoryMap, totalPages);
      ghost var freed := Frames;
      ghost var u := usedPages;
      MarkPages(host, hostPages, true);
      Wrap32Then(cleared, Clamped(host, hostPages, totalPages), u, usedPages);
      if UsableDisjoint(memoryMap) && HostRange(memoryMap, host, hostPages) && host < totalPages {
        HostClaimCount(memoryMap, host, hostPages, freed, totalPages);
      }
      forall i | 0 <= i < |Frames|
        ensures !Frames[i] <==> i < totalPages && UsableFrame(memoryMap, i) && !(host <= i < host + hostPages)
      {
        assert !Frames[i] <==> !freed[i] && !(host <= i < host + hostPages);
      }
    }

    /** The memset(0xFF) step of init: every frame used, used_pages = total_pages. */
    method ResetBitmap()
      requires totalPages < U32 && entryCount == CeilDiv(totalPages, WordBits)
      modifies this
      ensures fresh(entries) && totalPages == old(totalPages) && entryCount == old(entryCount)
      ensures Valid() && usedPages == totalPages
      ensures Frames == seq(WordBits * entryCount, _ => true)
    {
      entries := new Word[entryCount](_ => AllUsed());
      usedPages := totalPages;
      Frames := seq(WordBits * entryCount, _ => true);
    }

    /**
     * One turn of the usable-range pass: range i is cleared when it is usable, and the
     * free frames and used_pages then account for the first i + 1 ranges.
     */
    method ClearIfUsable(memoryMap: seq<MemoryRange>, i: nat)
      requires i < |memoryMap| && Valid()
      requires forall k :: 0 <= k < |Frames| ==> (!Frames[k] <==> k < totalPages && UsableFrame(memoryMap[..i], k))
      requires usedPages == Wrap32(totalPages - ClearedByInit(memoryMap[..i], totalPages))
      requires UsableDisjoint(memoryMap) ==> Consistent()
      modifies entries, this`Frames, this`usedPages
      ensures Valid() && |Frames| == |old(Frames)| && totalPages == old(totalPages)
      ensures forall k :: 0 <= k < |Frames| ==> (!Frames[k] <==> k < totalPages && UsableFrame(memoryMap[..i + 1], k))
      ensures usedPages == Wrap32(totalPages - ClearedByInit(memoryMap[..i + 1], totalPages))
      ensures UsableDisjoint(memoryMap) ==> Consistent()
    {
      var r := memoryMap[i];
      ghost var before, u := Frames, usedPages;
      if r.kind == Usable {
        MarkPages(r.firstPage, r.pageCount, false);
      }
      UsablePassStep(memoryMap, i, before, Frames, totalPages);
      UsablePassCount(memoryMap, i, before, Frames, totalPages, u, usedPages);
    }

    /** The pass of init over the usable ranges: mark_pages(first, count, false) on each. */
    method FreeUsable(memoryMap: seq<MemoryRange>)
      requires Valid() && usedPages == totalPages
      requires forall k :: 0 <= k < |Frames| ==> Frames[k]
      modifies entries, this`Frames, this`usedPages
      ensures Valid() && |Frames| == |old(Frames)|
      ensures forall k :: 0 <= k < |Frames| ==> (!Frames[k] <==> k < totalPages && UsableFrame(memoryMap, k))
      ensures usedPages == Wrap32(totalPages - ClearedByInit(memoryMap, totalPages))
      ensures UsableDisjoint(memoryMap) ==> Consistent()
    {
      UsedCountAllSet(Frames[..totalPages]);
      var i := 0;
      while i < |memoryMap|
        invariant 0 <= i <= |memoryMap|
        invariant Valid() && |Frames| == |old(Frames)|
        invariant forall k :: 0 <= k < |Frames| ==> (!Frames[k] <==> k < totalPages && UsableFrame(memoryMap[..i], k))
        invariant usedPages == Wrap32(totalPages - ClearedByInit(memoryMap[..i], totalPages))
        invariant UsableDisjoint(memoryMap) ==> Consistent()
      {
        ClearIfUsable(memoryMap, i);
        i := i + 1;
      }
      assert memoryMap[..i] == memoryMap;
    }

    /**
     * alloc_pages: first fit over the whole bitmap, low to high, runs crossing word
     * boundaries. On success exactly the run is set, used_pages grows by count and the
     * address is first * 4096; with no run (or count == 0) the result is 0.
     */
    method AllocPages(count: nat) returns (address: nat)
      requires Valid()
      modifies entries, this`Frames, this`usedPages
      ensures Valid()
      ensures FirstFit(old(Frames), count).None? ==>
                address == 0 && Frames == old(Frames) && usedPages == old(usedPages)
      ensures FirstFit(old(Frames), count).Some? ==>
                var f := FirstFit(old(Frames), count).value;
                && address == f * PageSize
                && f + count <= totalPages
                && Frames == Fill(old(Frames), f, count, true)
                && usedPages == Wrap32(old(usedPages) + count)
      ensures count == 0 ==> address == 0 && Frames == old(Frames) && usedPages == old(usedPages)
      ensures old(Consistent()) ==> Consistent()
    {
      var run := FindRun(count);
      if run.None? {
        assert FirstFit(Frames, count).Some? ==> count == 0 && |Frames| == 0 && Fill(Frames, 0, 0, true) == Frames;
        return 0;
      }
      ClaimRun(run.value, count);
      return run.value * PageSize;
    }

    /**
     * The scan of alloc_pages: word by word, bit by bit from the low end, counting the
     * clear bits in a row; it stops as soon as the count is reached. It finds the lowest
     * free run of count frames, except that an empty bitmap yields nothing even for
     * count == 0.
     */
    method FindRun(count: nat) returns (run: Option<nat>)
      requires Valid()
      ensures run.Some? ==> FirstFit(Frames, count) == run && FreeRun(Frames, run.value, count)
      ensures run.Some? && count == 0 ==> run.value == 0
      ensures run.None? ==> FirstFit(Frames, count).None? || (count == 0 && |Frames| == 0)
    {
      run := Scan(entries, count, Frames);
    }

    /** The tail of alloc_pages: mark_pages(first, count, true) on the run the scan found. */
    method ClaimRun(first: nat, count: nat)
      requires Valid() && FreeRun(Frames, first, count) && (count > 0 || first == 0)
      modifies entries, this`Frames, this`usedPages
      ensures Valid()
      ensures first + count <= totalPages
      ensures Frames == Fill(old(Frames), first, count, true)
      ensures usedPages == Wrap32(old(usedPages) + count)
      ensures old(Consistent()) ==> Consistent()
    {
      ghost var s := Frames;
      ClearRunBelowTotal(first, count);
      MarkPages(first, count, true);
      assert Frames == Fill(s, first, count, true) by {
        if count == 0 { assert Fill(s, first, 0, true) == s; }
      }
      assert Clamped(first, count, totalPages) == count;
      if old(Consistent()) {
        AllocKeepsCount(s, first, count);
      }
    }

    /** A clear run found by the scan lies below total_pages: padding bits are set. */
    lemma ClearRunBelowTotal(f: nat, n: nat)
      requires Valid() && FreeRun(Frames, f, n) && (n > 0 || f == 0)
      ensures f + n <= totalPages
    {
      if n > 0 {
        assert !Frames[f + n - 1];
        assert f + n - 1 < totalPages;
      }
    }

    /** Marking a clear run used keeps used_pages equal to the number of used frames. */
    lemma AllocKeepsCount(s: seq<bool>, f: nat, n: nat)
      requires Valid() && totalPages <= |s| && f + n <= totalPages && FreeRun(s, f, n)
      requires usedPages == Wrap32(UsedCount(s[..totalPages]) + n)
      requires UsedCount(s[..totalPages]) < U32
      requires Frames == Fill(s, f, n, true)
      ensures Consistent()
    {
      assert Frames[..totalPages] == Fill(s[..totalPages], f, n, true);
      FillUsedCount(s[..totalPages], f, n, true);
    }

    /** free_pages: mark_pages(first, count, false). */
    method FreePages(first: nat, count: nat)
      requires Valid()
      modifies entries, this`Frames, this`usedPages
      ensures Valid()
      ensures first >= totalPages ==> Frames == old(Frames)
      ensures first < totalPages ==> Frames == Fill(old(Frames), first, Clamped(first, count, totalPages), false)
      ensures usedPages == Wrap32(old(usedPages) - Clamped(first, count, totalPages))
      ensures old(Consistent()) && UsedRun(old(Frames), first, count) && first + count <= totalPages ==> Consistent()
    {
      ghost var s := Frames;
      MarkPages(first, count, false);
      if old(Consistent()) && UsedRun(s, first, count) && first + count <= totalPages {
        assert Frames[..totalPages] == Fill(s[..totalPages], first, count, false);
        FillUsedCount(s[..totalPages], first, count, false);
      }
    }

    /** get_total_pages. */
    method GetTotalPages() returns (n: nat)
      ensures n == totalPages
    {
      n := totalPages;
    }

    /** get_used_pages. */
    method GetUsedPages() returns (n: nat)
      ensures n == usedPages
    {
      n := usedPages;
    }
  }

  /**
   * The loops of alloc_pages over the bitmap words s is the view of: word by word,
   * bit by bit from the low end, counting the clear bits in a row, stopping as soon
   * as the count is reached.
   */
  method Scan(entries: array<Word>, count: nat, ghost s: seq<bool>) returns (run: Option<nat>)
    requires |s| == WordBits * entries.Length
    requires forall i :: 0 <= i < entries.Length ==> |entries[i]| == WordBits
    requires forall i, j :: 0 <= i < entries.Length && 0 <= j < WordBits ==> entries[i][j] == s[i * WordBits + j]
    ensures run.Some? ==> FirstFit(s, count) == run && FreeRun(s, run.value, count)
    ensures run.Some? && count == 0 ==> run.value == 0
    ensures run.None? ==> FirstFit(s, count).None? || (count == 0 && |s| == 0)
  {
    var firstEmpty: nat := 0;
    var emptyCount: nat := 0;
    var i := 0;
    while i < entries.Length
      invariant 0 <= i <= entries.Length
      invariant ScanState(s, count, i * WordBits, firstEmpty, emptyCount)
    {
      ghost var base := i * WordBits;
      var entry := entries[i];
      var j := 0;
      while j < WordBits
        invariant 0 <= j <= WordBits
        invariant |entry| == WordBits
        invariant entry[..WordBits - j] == entries[i][j..]
        invariant ScanState(s, count, base + j, firstEmpty, emptyCount)
      {
        ghost var fe0, ec0 := firstEmpty, emptyCount;
        ShiftView(entry, entries[i], j);
        if !entry[0] {
          if emptyCount == 0 {
            firstEmpty := i * WordBits + j;
            emptyCount := 1;
          } else {
            emptyCount := emptyCount + 1;
          }
        } else {
          emptyCount := 0;
        }
        if emptyCount >= count {
          FoundRun(s, count, base + j, fe0, ec0, firstEmpty, emptyCount);
          FirstFitIsLowest(s, count, firstEmpty);
          return Some(firstEmpty);
        }
        NextScanState(s, count, base + j, fe0, ec0, firstEmpty, emptyCount);
        entry := entry[1..] + [false];
        j := j + 1;
      }
      assert (i + 1) * WordBits == base + WordBits;
      i := i + 1;
    }
    return None;
  }

  /**
   * What alloc_pages knows after examining the first p frames of s: emptyCount is the
   * length of the clear run ending at p (it started at firstEmpty), it is still short
   * of count, and no run of count clear frames lies wholly below p.
   */
  ghost predicate ScanState(s: seq<bool>, count: nat, p: nat, firstEmpty: nat, emptyCount: nat) {
    && p <= |s|
    && emptyCount <= p
    && (p > 0 ==> emptyCount < count)
    && (forall k :: p - emptyCount <= k < p ==> !s[k])
    && (emptyCount < p ==> s[p - emptyCount - 1])
    && (emptyCount > 0 ==> firstEmpty == p - emptyCount)
    && (p == 0 ==> firstEmpty == 0 && emptyCount == 0)
    && (p > 0 ==> forall g :: 0 <= g && g + count <= p ==> !FreeRun(s, g, count))
  }

  /** One step of the scan: the counters before (fe0, ec0) and after (fe, ec) examining frame p. */
  ghost predicate Step(s: seq<bool>, p: nat, fe0: nat, ec0: nat, fe: nat, ec: nat) {
    && p < |s|
    && if !s[p] then
         (if ec0 == 0 then fe == p && ec == 1 else fe == fe0 && ec == ec0 + 1)
       else
         fe == fe0 && ec == 0
  }

  /** When the count is reached, firstEmpty starts the lowest free run. */
  lemma FoundRun(s: seq<bool>, count: nat, p: nat, fe0: nat, ec0: nat, fe: nat, ec: nat)
    requires ScanState(s, count, p, fe0, ec0) && Step(s, p, fe0, ec0, fe, ec) && ec >= count
    ensures FreeRun(s, fe, count)
    ensures forall g :: 0 <= g < fe ==> !FreeRun(s, g, count)
  {
    if count > 0 {
      assert ec == count;
      forall g | 0 <= g < fe
        ensures !FreeRun(s, g, count)
      {
        assert g + count <= p;
      }
    }
  }

  /** When the count is not reached, the scan state holds one frame further. */
  lemma NextScanState(s: seq<bool>, count: nat, p: nat, fe0: nat, ec0: nat, fe: nat, ec: nat)
    requires ScanState(s, count, p, fe0, ec0) && Step(s, p, fe0, ec0, fe, ec) && ec < count
    ensures ScanState(s, count, p + 1, fe, ec)
  {
  }

  /** A clear run counts nothing. */
  lemma {:induction false} UsedCountNoneSet(s: seq<bool>)
    requires forall k :: 0 <= k < |s| ==> !s[k]
    ensures UsedCount(s) == 0
  {
    if s != [] {
      UsedCountNoneSet(s[1..]);
    }
  }

  /** A map listing the usable frames 1..10 twice; RAM ends at frame 11. */
  const TwiceListed: seq<MemoryRange> := [MemoryRange(Usable, 1, 10), MemoryRange(Usable, 1, 10)]

  /**
   * init on a map whose usable ranges overlap: the bitmap goes to frame 1 and only
   * frames 0 and 1 are used, yet used_pages is 11 - 20 + 1 taken mod 2^32, because the
   * overlapping frames are subtracted once per range that lists them.
   */
  lemma OverlapDrift(s: seq<bool>)
    requires |s| == 11
    requires forall i :: 0 <= i < 11 ==> (!s[i] <==> UsableFrame(TwiceListed, i) && !(1 <= i < 2))
    ensures !UsableDisjoint(TwiceListed)
    ensures MaxRamEnd(TwiceListed, t => t == Usable) == 11
    ensures FirstHost(TwiceListed, BitmapPages(CeilDiv(11, WordBits)), 0) == Some(0)
    ensures UsedCount(s) == 2
    ensures Wrap32(11 - ClearedByInit(TwiceListed, 11) + Clamped(1, 1, 11)) == U32 - 8
  {
    assert Covers(TwiceListed[0], 1) && Covers(TwiceListed[1], 1);
    assert MaxRamEnd(TwiceListed[..1], t => t == Usable) == 11;
    assert BitmapPages(CeilDiv(11, WordBits)) == 1;
    assert CanHost(TwiceListed[0], 1);
    assert ClearedByInit(TwiceListed[..1], 11) == 10;
    TwiceListedUsed(s);
  }

  /** Under the overlapping map only frame 0 (outside every range) and the bitmap's frame are used. */
  lemma TwiceListedUsed(s: seq<bool>)
    requires |s| == 11
    requires forall i :: 0 <= i < 11 ==> (!s[i] <==> UsableFrame(TwiceListed, i) && !(1 <= i < 2))
    ensures UsedCount(s) == 2
  {
    assert !UsableFrame(TwiceListed, 0);
    assert Covers(TwiceListed[0], 1);
    forall k | 0 <= k < |s[2..]|
      ensures !s[2..][k]
    {
      assert Covers(TwiceListed[0], k + 2);
    }
    UsedCountNoneSet(s[2..]);
    assert s[1..][1..] == s[2..];
  }

  /** A map whose first usable range starts at frame 0; RAM ends at frame 4. */
  const LowUsable: seq<MemoryRange> := [MemoryRange(Usable, 0, 2), MemoryRange(Usable, 2, 2)]

  /**
   * init never puts the bitmap at frame 0, but it does leave frame 0 free when a usable
   * range starts there: the bitmap goes to frame 2, and the first alloc_pages(1) then
   * finds frame 0 and returns address 0, the value that also signals failure.
   */
  lemma FrameZeroHandedOut(s: seq<bool>)
    requires |s| == WordBits
    requires forall i :: 0 <= i < |s| ==> (!s[i] <==> i < 4 && UsableFrame(LowUsable, i) && !(2 <= i < 3))
    ensures MaxRamEnd(LowUsable, t => t == Usable) == 4
    ensures FirstHost(LowUsable, BitmapPages(CeilDiv(4, WordBits)), 0) == Some(1) && LowUsable[1].firstPage == 2
    ensures FirstFit(s, 1).Some? && FirstFit(s, 1).value * PageSize == 0
  {
    assert MaxRamEnd(LowUsable[..1], t => t == Usable) == 2;
    assert BitmapPages(CeilDiv(4, WordBits)) == 1;
    assert !CanHost(LowUsable[0], 1) && CanHost(LowUsable[1], 1);
    assert Covers(LowUsable[0], 0);
    FirstFitIsLowest(s, 1, 0);
  }
}
