/** Memory-mapped files, do_mmap and do_munmap of vm/file.c: a mapping
    registers pending file-backed pages that load their bytes lazily, and an
    unmapping destroys the pages the first page says belong to the mapping.

    The products and remainders in this module are written with the literal
    4096 (PGSIZE) so that the solver sees them as linear. */
module Mmap {
  import opened VmTypes
  import opened Vm

  /** page_read_bytes of do_mmap: the same for every page of a mapping. */
  function PageReadBytes(length: nat): nat
  {
    if length < PGSIZE then length else PGSIZE
  }

  /** page_zero_bytes of do_mmap: the rest of each page. */
  function PageZeroBytes(length: nat): nat
  {
    PGSIZE - PageReadBytes(length)
  }

  /** total_page_cnt: `length & PGSIZE` tests bit 12 of the length, not its
      remainder modulo PGSIZE, and the size_t result is stored in an int. */
  function TotalPageCount(length: nat): Int32
  {
    var q := length / 4096;
    ToInt32(if q % 2 == 1 then q + 1 else q)
  }

  // The loop variables of do_mmap after k iterations, each exactly as the C
  // code updates it: size_t and void * wrap modulo 2^64, off_t at 32 bits.

  function ReadAt(fileLength: nat, length: nat, k: nat): (r: nat)
    requires length < U64
    ensures r < U64
  {
    if k == 0 then Min(fileLength, length)
    else SubU64(ReadAt(fileLength, length, k - 1), PageReadBytes(length))
  }

  function ZeroAt(fileLength: nat, length: nat, k: nat): (r: nat)
    ensures r < U64
  {
    if k == 0 then PGSIZE - Min(fileLength, length) % 4096
    else SubU64(ZeroAt(fileLength, length, k - 1), PageZeroBytes(length))
  }

  function UpageAt(start: nat, k: nat): (r: nat)
    requires start < U64
    ensures r < U64
  {
    if k == 0 then start else AddU64(UpageAt(start, k - 1), PGSIZE)
  }

  function OffsetAt(offset: Int32, length: nat, k: nat): Int32
  {
    if k == 0 then offset else AddInt32(OffsetAt(offset, length, k - 1), PageReadBytes(length))
  }

  /** The page addresses and file offsets of the first n iterations. */
  function Upages(start: nat, n: nat): (r: seq<int>)
    requires start < U64
    ensures |r| == n
  {
    if n == 0 then [] else Upages(start, n - 1) + [UpageAt(start, n - 1)]
  }

  function Offsets(offset: Int32, length: nat, n: nat): (r: seq<int>)
    ensures |r| == n
  {
    if n == 0 then [] else Offsets(offset, length, n - 1) + [OffsetAt(offset, length, n - 1)]
  }

  lemma MulSucc(k: int, p: int)
    ensures (k - 1) * p + p == k * p
  {
  }

  lemma WrapAligned(x: int)
    requires x % 4096 == 0
    ensures Wrap64(x) % 4096 == 0
  {
  }

  /** The k-th page of a mapping sits k pages after its start, modulo 2^64,
      and is page-aligned when the start is. */
  lemma {:induction false} UpageAtIs(start: nat, k: nat)
    requires start < U64
    ensures UpageAt(start, k) == Wrap64(start + k * 4096)
    ensures start % 4096 == 0 ==> UpageAt(start, k) % 4096 == 0
  {
    if k == 0 {
      WrapOf(0, start);
    } else {
      UpageAtIs(start, k - 1);
      AddU64Wraps(UpageAt(start, k - 1), start + (k - 1) * 4096, PGSIZE);
    }
    if start % 4096 == 0 {
      WrapAligned(start + k * 4096);
    }
  }

  /** The k-th page of a mapping reads the file at offset plus k page read
      counts, wrapped to an int. */
  lemma {:induction false} OffsetAtIs(offset: Int32, length: nat, k: nat)
    ensures OffsetAt(offset, length, k) == ToInt32(offset + k * PageReadBytes(length))
  {
    if k > 0 {
      var pr := PageReadBytes(length);
      var prev := OffsetAt(offset, length, k - 1);
      OffsetAtIs(offset, length, k - 1);
      var x := offset + (k - 1) * pr;
      assert prev == ToInt32(x);
      AddInt32Wraps(prev, x, pr);
      MulSucc(k, pr);
    }
  }

  /** What is left to read after k pages: the bytes to read less k page read
      counts, modulo 2^64. */
  lemma {:induction false} ReadAtIs(fileLength: nat, length: nat, k: nat)
    requires length < U64
    ensures ReadAt(fileLength, length, k)
            == Wrap64(Min(fileLength, length) - k * PageReadBytes(length))
  {
    var pr := PageReadBytes(length);
    if k == 0 {
      WrapOf(0, Min(fileLength, length));
    } else {
      ReadAtIs(fileLength, length, k - 1);
      var m := (k - 1) * pr;
      SubU64Wraps(ReadAt(fileLength, length, k - 1), Min(fileLength, length) - m, pr);
      MulSucc(k, pr);
    }
  }

  /** What is left to zero after k pages: the first zero count less k page
      zero counts, modulo 2^64. */
  lemma {:induction false} ZeroAtIs(fileLength: nat, length: nat, k: nat)
    ensures ZeroAt(fileLength, length, k)
            == Wrap64(PGSIZE - Min(fileLength, length) % 4096 - k * PageZeroBytes(length))
  {
    var pz := PageZeroBytes(length);
    var z0 := PGSIZE - Min(fileLength, length) % 4096;
    if k == 0 {
      WrapOf(0, z0);
    } else {
      ZeroAtIs(fileLength, length, k - 1);
      var m := (k - 1) * pz;
      SubU64Wraps(ZeroAt(fileLength, length, k - 1), z0 - m, pz);
      MulSucc(k, pz);
    }
  }

  /** The address of a mapping's pages are those of Upages. */
  lemma {:induction false} UpagesAt(start: nat, n: nat, k: nat)
    requires start < U64 && k < n
    ensures Upages(start, n)[k] == Wrap64(start + k * 4096)
  {
    if k < n - 1 {
      UpagesAt(start, n - 1, k);
    } else {
      UpageAtIs(start, k);
    }
  }

  lemma {:induction false} OffsetsAt(offset: Int32, length: nat, n: nat, k: nat)
    requires k < n
    ensures Offsets(offset, length, n)[k] == ToInt32(offset + k * PageReadBytes(length))
  {
    if k < n - 1 {
      OffsetsAt(offset, length, n - 1, k);
    } else {
      OffsetAtIs(offset, length, k);
    }
  }

  /** Fewer than 2^52 pages of a mapping never meet: addresses wrap only after
      the whole 64-bit space. */
  lemma UpagesDistinct(start: nat, n: nat, i: nat, j: nat)
    requires start < U64 && i < j < n <= PAGES64
    ensures Upages(start, n)[i] != Upages(start, n)[j]
  {
    UpagesAt(start, n, i);
    UpagesAt(start, n, j);
  }

  /** After 2^52 pages the address is back at the start of the mapping. */
  lemma UpageFullCircle(start: nat)
    requires start < U64
    ensures UpageAt(start, 0x10_0000_0000_0000) == start
  {
    UpageAtIs(start, 0x10_0000_0000_0000);
  }

  /** Two values that wrap to zero add up to one that does. */
  lemma WrapZeroSum(a: int, b: int)
    requires Wrap64(a) == 0 && Wrap64(b) == 0
    ensures Wrap64(a + b) == 0
  {
    var qa := a / 0x1_0000_0000_0000_0000;
    var qb := b / 0x1_0000_0000_0000_0000;
    assert a + b == (qa + qb) * 0x1_0000_0000_0000_0000;
  }

  /** The only value wrapping to zero in the 2^64 values up to zero is zero. */
  lemma WrapZeroNear(x: int)
    requires -0x1_0000_0000_0000_0000 < x <= 0 && Wrap64(x) == 0
    ensures x == 0
  {
  }

  /** The loop of do_mmap stops only after its first page, and only when the
      length is below one page and the file holds all of it: otherwise one of
      the counters never returns to zero modulo 2^64 within 2^52 pages. */
  lemma {:induction false} MmapLoopExit(fileLength: nat, length: nat, k: nat)
    requires length < U64 && 1 <= k <= PAGES64
    requires ReadAt(fileLength, length, k) == 0 && ZeroAt(fileLength, length, k) == 0
    ensures k == 1 && length < PGSIZE && length <= fileLength
  {
    var r0 := Min(fileLength, length);
    ReadAtIs(fileLength, length, k);
    ZeroAtIs(fileLength, length, k);
    if length >= PGSIZE {
      // nothing is zeroed per page, so zero_bytes keeps its first value
      assert false;
    }
    assert r0 % 4096 == r0;
    var rl := r0 - k * length;
    var zl := PGSIZE - r0 - k * (PGSIZE - length);
    WrapZeroSum(rl, zl);
    assert rl + zl == 4096 - 4096 * k;
    WrapZeroNear(4096 - 4096 * k);
    WrapZeroNear(rl);
  }

  /** A mapping shorter than a page of a file that holds all of it is done
      after its first page. */
  lemma MmapOnePage(fileLength: nat, length: nat)
    requires length < PGSIZE && length <= fileLength
    ensures ReadAt(fileLength, length, 1) == 0 && ZeroAt(fileLength, length, 1) == 0
  {
  }

  /** The count do_mmap stamps agrees with rounding the length up to whole
      pages exactly when bit 12 of the length says whether it has a partial
      page; a mapping shorter than a page is stamped 0, one of exactly one page
      2. */
  lemma TotalPageCountRounding(length: nat)
    requires length < 0x8000_0000
    ensures TotalPageCount(length) == (length + 4095) / 4096
            <==> ((length / 4096) % 2 == 1) == (length % 4096 != 0)
    ensures length < PGSIZE ==> TotalPageCount(length) == 0
    ensures TotalPageCount(PGSIZE) == 2
  {
  }

  /** A page of a mapping: pending, with lazy_load_segment as its callback
      and a container holding the reopened file, the page's offset, the WHOLE
      mapping length as read count and PGSIZE minus the page read count as zero
      count, and total_page_cnt as its page count. */
  ghost predicate IsMappedPage(p: Page, va: int, writable: bool, rf: FileRef,
                               off: int, length: nat, total: Int32)
    reads p, AuxSet(p.payload)
  {
    && p.va == va && p.writable == writable && p.frame == null
    && p.payload.Uninit? && p.payload.aux != null
    && p.payload == Uninit(LazyLoadInit, VmFile, p.payload.aux, FileInit)
    && Snap(p.payload.aux) == AuxSnap(rf, off, length, PGSIZE - PageReadBytes(length))
    && p.mappedPageCount == total
  }

  /** do_mmap part way: the pages there were are kept, and the pages registered
      so far sit at the addresses vas, with the offsets offs, and nowhere else. */
  ghost predicate MappedRun(spt: Spt, base: map<int, Page>, vas: seq<int>, offs: seq<int>,
                            writable: bool, rf: FileRef, length: nat, total: Int32)
    reads *
  {
    && spt.Valid() && |offs| == |vas|
    && (forall va :: va in base ==> va in spt.pages && spt.pages[va] == base[va])
    && (forall va :: va in spt.pages ==> va in base || va in vas)
    && (forall k :: 0 <= k < |vas| ==>
          && vas[k] !in base && vas[k] in spt.pages
          && IsMappedPage(spt.pages[vas[k]], vas[k], writable, rf, offs[k], length, total))
  }

  /** One iteration of the do_mmap loop on a free page address: a container
      for the page and a pending VM_FILE page carrying it, stamped with the
      mapping's page count. */
  method MapPage(spt: Spt, upage: nat, writable: bool, rf: FileRef, ofs: Int32, length: nat,
                 total: Int32, ghost base: map<int, Page>, ghost vas: seq<int>, ghost offs: seq<int>)
    requires MappedRun(spt, base, vas, offs, writable, rf, length, total)
    requires upage % 4096 == 0 && upage !in spt.pages
    modifies spt
    ensures MappedRun(spt, base, vas + [upage], offs + [ofs], writable, rf, length, total)
    ensures upage in spt.pages && fresh(spt.pages[upage])
    ensures spt.pages == old(spt.pages)[upage := spt.pages[upage]]
  {
    var pageReadBytes := if length < PGSIZE then length else PGSIZE;
    var pageZeroBytes := PGSIZE - pageReadBytes;
    var container := new Container(rf, ofs, length, pageZeroBytes);
    assert PgRoundDown(upage) == upage;
    assert Snap(container) == AuxSnap(rf, ofs, length, PGSIZE - PageReadBytes(length));
    var ok := AllocPageWithInitializer(spt, VmFile, upage, writable, LazyLoadInit, container);
    // vm_alloc_page_with_initializer fails only on a taken page
    assert ok;
    var page := spt.FindPage(upage);
    assert page.payload == Uninit(LazyLoadInit, VmFile, container, FileInit);
    page.mappedPageCount := total;
    assert IsMappedPage(page, upage, writable, rf, ofs, length, total);
  }

  /** The loop variables of do_mmap after n iterations from start. */
  ghost predicate MmapCursor(start: nat, offset: Int32, fileLength: nat, length: nat, n: nat,
                             readBytes: nat, zeroBytes: nat, upage: nat, ofs: Int32)
  {
    && start < U64 && length < U64 && n <= PAGES64 && start % 4096 == 0
    && readBytes == ReadAt(fileLength, length, n) && zeroBytes == ZeroAt(fileLength, length, n)
    && upage == UpageAt(start, n) && ofs == OffsetAt(offset, length, n)
    && upage % 4096 == 0
  }

  /** The bookkeeping at the end of an iteration takes the loop variables to
      their values one page further on. */
  lemma MmapAdvance(start: nat, offset: Int32, fileLength: nat, length: nat, n: nat,
                    readBytes: nat, zeroBytes: nat, upage: nat, ofs: Int32)
    requires MmapCursor(start, offset, fileLength, length, n, readBytes, zeroBytes, upage, ofs)
    requires n < PAGES64
    ensures MmapCursor(start, offset, fileLength, length, n + 1,
                       SubU64(readBytes, PageReadBytes(length)), SubU64(zeroBytes, PageZeroBytes(length)),
                       AddU64(upage, PGSIZE), AddInt32(ofs, PageReadBytes(length)))
  {
  }

  /** do_mmap after n iterations from start: the loop variables hold their
      n-th values and the n pages registered so far form a run of the mapping. */
  ghost predicate MmapProgress(spt: Spt, base: map<int, Page>, start: nat, offset: Int32,
                               fileLength: nat, length: nat, writable: bool, rf: FileRef, n: nat,
                               readBytes: nat, zeroBytes: nat, upage: nat, ofs: Int32)
    reads *
  {
    && MmapCursor(start, offset, fileLength, length, n, readBytes, zeroBytes, upage, ofs)
    && MappedRun(spt, base, Upages(start, n), Offsets(offset, length, n),
                 writable, rf, length, TotalPageCount(length))
    && (n > 0 ==> start in spt.pages && start !in base)
  }

  /** One iteration of the do_mmap loop once upage is known to be free: the
      page is registered and the counters, the address and the offset advance
      by one page. A mapping shorter than a page of a file that holds all of
      it is done after its first page. */
  method MmapStep(spt: Spt, ghost base: map<int, Page>, ghost start: nat, ghost offset: Int32,
                  ghost fileLength: nat, length: nat, writable: bool, rf: FileRef, total: Int32,
                  ghost n: nat, readBytes: nat, zeroBytes: nat, upage: nat, ofs: Int32)
    returns (readBytes': nat, zeroBytes': nat, upage': nat, ofs': Int32)
    requires MmapProgress(spt, base, start, offset, fileLength, length, writable, rf, n,
                          readBytes, zeroBytes, upage, ofs)
    requires total == TotalPageCount(length) && upage !in spt.pages
    modifies spt
    ensures n < PAGES64
    ensures MmapProgress(spt, base, start, offset, fileLength, length, writable, rf, n + 1,
                         readBytes', zeroBytes', upage', ofs')
    ensures upage in spt.pages && fresh(spt.pages[upage])
    ensures spt.pages == old(spt.pages)[upage := spt.pages[upage]]
    ensures n == 0 && length < PGSIZE && length <= fileLength ==> readBytes' == 0 && zeroBytes' == 0
  {
    if n == PAGES64 {
      UpageFullCircle(start);
      assert false;
    }
    var pageReadBytes := PageReadBytes(length);
    var pageZeroBytes := PageZeroBytes(length);
    MapPage(spt, upage, writable, rf, ofs, length, total, base,
            Upages(start, n), Offsets(offset, length, n));
    readBytes' := SubU64(readBytes, pageReadBytes);
    zeroBytes' := SubU64(zeroBytes, pageZeroBytes);
    upage' := AddU64(upage, PGSIZE);
    ofs' := AddInt32(ofs, pageReadBytes);
    MmapAdvance(start, offset, fileLength, length, n, readBytes, zeroBytes, upage, ofs);
    if n == 0 && length < PGSIZE && length <= fileLength {
      MmapOnePage(fileLength, length);
    }
  }

  /** A page found taken before the first iteration has registered anything
      was taken before do_mmap was called. */
  lemma MmapTakenFails(spt: Spt, base: map<int, Page>, start: nat, offset: Int32,
                       fileLength: nat, length: nat, writable: bool, rf: FileRef, n: nat,
                       readBytes: nat, zeroBytes: nat, upage: nat, ofs: Int32)
    requires MmapProgress(spt, base, start, offset, fileLength, length, writable, rf, n,
                          readBytes, zeroBytes, upage, ofs)
    requires upage in spt.pages
    ensures UpageAt(start, n) in spt.pages
    ensures n == 0 ==> start in base
  {
    if n == 0 {
      assert upage == start && Upages(start, 0) == [];
    }
  }

  /** Both counters at zero: the loop ran once, for a mapping shorter than a
      page of a file that holds all of it, on a page that was free. */
  lemma MmapDone(spt: Spt, base: map<int, Page>, start: nat, offset: Int32,
                 fileLength: nat, length: nat, writable: bool, rf: FileRef, n: nat,
                 upage: nat, ofs: Int32)
    requires MmapProgress(spt, base, start, offset, fileLength, length, writable, rf, n,
                          0, 0, upage, ofs)
    ensures n == 1 && length < PGSIZE && length <= fileLength && start !in base
  {
    assert n > 0;
    MmapLoopExit(fileLength, length, n);
  }

  /** The loop of do_mmap from start on: register pages until both counters
      reach zero, refusing as soon as a page is already taken (the pages
      registered so far stay registered). It ends well exactly when the mapping
      is shorter than a page, the file holds all of it and start is free, and
      then after that one page. */
  method MmapLoop(spt: Spt, start: nat, offset: Int32, ghost fileLength: nat, length: nat,
                  writable: bool, rf: FileRef, readBytes0: nat, zeroBytes0: nat)
    returns (r: Option<nat>, ghost n: nat)
    requires MmapProgress(spt, spt.pages, start, offset, fileLength, length, writable, rf, 0,
                          readBytes0, zeroBytes0, start, offset)
    modifies spt
    ensures n <= PAGES64
    ensures MappedRun(spt, old(spt.pages), Upages(start, n), Offsets(offset, length, n),
                      writable, rf, length, TotalPageCount(length))
    ensures forall va :: va in spt.pages && va !in old(spt.pages) ==> fresh(spt.pages[va])
    ensures r.Some? <==> length < PGSIZE && length <= fileLength && start !in old(spt.pages)
    ensures r.Some? ==> r.value == start && n == 1
    ensures r.None? ==> UpageAt(start, n) in spt.pages
  {
    ghost var base := spt.pages;
    var total := TotalPageCount(length);
    var readBytes := readBytes0;
    var zeroBytes := zeroBytes0;
    var upage := start;
    var ofs := offset;
    ghost var success := length < PGSIZE && length <= fileLength && start !in base;
    n := 0;
    while readBytes > 0 || zeroBytes > 0
      modifies spt
      invariant MmapProgress(spt, base, start, offset, fileLength, length, writable, rf, n,
                             readBytes, zeroBytes, upage, ofs)
      invariant forall va :: va in spt.pages && va !in base ==> fresh(spt.pages[va])
      invariant success ==> n == 0 || (readBytes == 0 && zeroBytes == 0)
      decreases PAGES64 - n
    {
      if spt.FindPage(upage) != null {
        MmapTakenFails(spt, base, start, offset, fileLength, length, writable, rf, n,
                       readBytes, zeroBytes, upage, ofs);
        return None, n;
      }
      readBytes, zeroBytes, upage, ofs := MmapStep(spt, base, start, offset, fileLength, length,
                                                   writable, rf, total, n, readBytes, zeroBytes, upage, ofs);
      n := n + 1;
    }
    MmapDone(spt, base, start, offset, fileLength, length, writable, rf, n, upage, ofs);
    r := Some(start);
  }

  /** do_mmap: reopen the file, then register pending VM_FILE pages from addr
      on, one per loop iteration. It succeeds, with exactly one page, when the
      mapping is shorter than a page, the file holds all of it and addr is
      free; in every other case it returns NULL. */
  method DoMmap(spt: Spt, env: Env, addr: nat, length: nat, writable: bool,
                file: FileRef, offset: Int32) returns (r: Option<nat>, ghost reopened: FileRef, ghost n: nat)
    requires spt.Valid() && env.Valid() && file in env.files
    requires addr < U64 && length < U64
    requires addr % 4096 == 0 && offset % 4096 == 0
    modifies spt, env
    ensures reopened !in old(env.files) && env.files == old(env.files)[reopened := old(env.files)[file]]
    ensures env.Valid() && env.pos == old(env.pos)[reopened := 0]
    ensures env.calls == old(env.calls) && env.freeFrames == old(env.freeFrames)
    ensures n <= PAGES64
    ensures MappedRun(spt, old(spt.pages), Upages(addr, n), Offsets(offset, length, n),
                      writable, reopened, length, TotalPageCount(length))
    ensures forall va :: va in spt.pages && va !in old(spt.pages) ==> fresh(spt.pages[va])
    ensures r.Some? <==> length < PGSIZE && length <= |old(env.files)[file]| && addr !in old(spt.pages)
    ensures r.Some? ==> r.value == addr && n == 1
    ensures r.None? ==> UpageAt(addr, n) in spt.pages
  {
    var rf := env.Reopen(file);
    reopened := rf;
    var fileLength := |env.files[rf]|;
    var readBytes: nat := if fileLength < length then fileLength else length;
    var zeroBytes: nat := PGSIZE - readBytes % 4096;
    r, n := MmapLoop(spt, addr, offset, fileLength, length, writable, rf, readBytes, zeroBytes);
  }

  // ---- do_munmap ----

  /** The page n steps into a run of Upages is UpageAt of n. */
  lemma {:induction false} UpagesIndex(start: nat, n: nat, k: nat)
    requires start < U64 && k < n
    ensures Upages(start, n)[k] == UpageAt(start, k)
  {
    if k < n - 1 {
      UpagesIndex(start, n - 1, k);
    }
  }

  /** Stepping an address by a page steps the page holding it by a page. */
  lemma RoundDownStep(a: nat)
    requires a < U64
    ensures PgRoundDown(AddU64(a, PGSIZE)) == AddU64(PgRoundDown(a), PGSIZE)
  {
    var r := PgRoundDown(a);
    var m := a - r;
    var q := r / 4096;
    assert r == q * 4096;
    if r + PGSIZE < U64 {
      assert q < 0x10_0000_0000_0000 - 1;
      var s := PgRoundDown(a + PGSIZE);
      AlignedWithinPage(r + PGSIZE, s);
    } else {
      assert q == 0x10_0000_0000_0000 - 1;
      assert AddU64(a, PGSIZE) == m;
    }
  }

  /** The page the loop of do_munmap looks up after k address steps. */
  lemma {:induction false} UnmapKeyAt(a: nat, k: nat)
    requires a < U64
    ensures PgRoundDown(UpageAt(a, k)) == UpageAt(PgRoundDown(a), k)
  {
    if k > 0 {
      UnmapKeyAt(a, k - 1);
      RoundDownStep(UpageAt(a, k - 1));
    }
  }

  /** The pages do_munmap visits: mapped_page_count of the page at addr of
      them, from that page on, or none when the count is not positive. */
  ghost function UnmapRun(spt: Spt, addr: nat): (run: seq<int>)
    requires spt.Valid() && addr < U64 && PgRoundDown(addr) in spt.pages
    reads spt, spt.pages.Values
    ensures |run| <= 0x8000_0000
  {
    var count := spt.pages[PgRoundDown(addr)].mappedPageCount;
    Upages(PgRoundDown(addr), if count > 0 then count else 0)
  }

  /** What destroy does for each page of a run: the calls of the page there
      is, none for an address without a page. */
  ghost function UnmapPlan(spt: Spt, space: Pml4, run: seq<int>): (plan: map<int, seq<Call>>)
    requires spt.Valid() && space.Valid()
    requires forall k :: k in run && k in spt.pages ==> Destroyable(spt.pages[k], space)
    reads spt, spt.pages.Values, space, MappedFrames(space)
    reads set k, o | k in spt.pages && o in AuxSet(spt.pages[k].payload) :: o
    ensures plan.Keys == set k | k in run
  {
    map k | k in run :: if k in spt.pages then DestroyCalls(spt.pages[k], space) else []
  }

  /** The unmapping after the first i pages of the run: those are recorded as
      visited, every page still to visit would make the calls of the plan, and
      the page table has lost exactly the file-backed pages visited. */
  ghost predicate UnmappedUpTo(spt: Spt, space: Pml4, base: map<int, Pte>, run: seq<int>, i: nat,
                               plan: map<int, seq<Call>>, fileKeys: set<int>, visited: set<int>)
    reads *
  {
    && space.Valid() && i <= |run|
    && (forall j :: 0 <= j < i ==> run[j] in visited)
    && (forall k :: k in visited ==> k in run)
    && (forall j :: i <= j < |run| ==>
          && run[j] !in visited && run[j] in plan
          && (run[j] in spt.pages ==>
                && (run[j] in fileKeys <==> spt.pages[run[j]].payload.FileBacked?)
                && Destroyable(spt.pages[run[j]], space)
                && DestroyCalls(spt.pages[run[j]], space) == plan[run[j]])
          && (run[j] !in spt.pages ==> run[j] !in fileKeys && plan[run[j]] == []))
    && (forall va :: va in space.entries <==> va in base && !(va in fileKeys && va in visited))
    && (forall va :: va in space.entries ==> space.entries[va] == base[va])
  }

  /** One iteration of the loop of do_munmap: destroy the page found at the
      i-th address, if any, then step the address and look it up. */
  method UnmapStep(spt: Spt, space: Pml4, env: Env, addr: nat, a: nat, page: Page?,
                   ghost run: seq<int>, ghost i: nat, ghost base: map<int, Pte>,
                   ghost plan: map<int, seq<Call>>, ghost fileKeys: set<int>, ghost visited: set<int>)
    returns (a': nat, page': Page?)
    requires spt.Valid() && addr < U64 && |run| <= PAGES64 && i < |run|
    requires run == Upages(PgRoundDown(addr), |run|)
    requires a == UpageAt(addr, i) && page == spt.FindPage(a)
    requires UnmappedUpTo(spt, space, base, run, i, plan, fileKeys, visited)
    modifies space, env
    ensures UnmappedUpTo(spt, space, base, run, i + 1, plan, fileKeys, visited + {run[i]})
    ensures a' == UpageAt(addr, i + 1) && page' == spt.FindPage(a')
    ensures env.calls == old(env.calls) + plan[run[i]]
    ensures env.files == old(env.files) && env.pos == old(env.pos)
    ensures env.nextHandle == old(env.nextHandle) && env.freeFrames == old(env.freeFrames)
  {
    ghost var start := PgRoundDown(addr);
    UnmapKeyAt(addr, i);
    UpagesIndex(start, |run|, i);
    assert run[i] in run;
    forall j | i + 1 <= j < |run|
      ensures run[j] != run[i]
    {
      UpagesDistinct(start, |run|, i, j);
    }
    if page != null {
      Destroy(page, space, env);
    }
    a' := AddU64(a, PGSIZE);
    page' := spt.FindPage(a');
  }

  /** The keys of a run. */
  function SetOf(s: seq<int>): set<int>
  {
    set k | k in s
  }

  /** The calls do_munmap makes: the plan of each page of the run, in the
      order of the run. */
  ghost function UnmapCalls(spt: Spt, space: Pml4, addr: nat): seq<Call>
    requires spt.Valid() && space.Valid() && addr < U64 && PgRoundDown(addr) in spt.pages
    requires forall k :: k in UnmapRun(spt, addr) && k in spt.pages ==> Destroyable(spt.pages[k], space)
    reads spt, spt.pages.Values, space, MappedFrames(space)
    reads set k, o | k in spt.pages && o in AuxSet(spt.pages[k].payload) :: o
  {
    var run := UnmapRun(spt, addr);
    Concat(run, UnmapPlan(spt, space, run), |run|)
  }

  /** The loop of do_munmap: count address steps from addr, destroying the
      page found at each, if any. */
  method UnmapLoop(spt: Spt, space: Pml4, env: Env, addr: nat, page0: Page?, count: Int32,
                   ghost run: seq<int>, ghost plan: map<int, seq<Call>>, ghost fileKeys: set<int>)
    returns (ghost visited: set<int>)
    requires spt.Valid() && addr < U64 && page0 == spt.FindPage(addr)
    requires |run| == (if count > 0 then count else 0) && run == Upages(PgRoundDown(addr), |run|)
    requires UnmappedUpTo(spt, space, space.entries, run, 0, plan, fileKeys, {})
    modifies space, env
    ensures UnmappedUpTo(spt, space, old(space.entries), run, |run|, plan, fileKeys, visited)
    ensures env.calls == old(env.calls) + Concat(run, plan, |run|)
    ensures env.files == old(env.files) && env.pos == old(env.pos)
    ensures env.nextHandle == old(env.nextHandle) && env.freeFrames == old(env.freeFrames)
  {
    ghost var base := space.entries;
    visited := {};
    var page := page0;
    var a := addr;
    var i := 0;
    while i < count
      invariant 0 <= i <= |run| && (i < count ==> i < |run|)
      invariant a == UpageAt(addr, i) && page == spt.FindPage(a)
      invariant UnmappedUpTo(spt, space, base, run, i, plan, fileKeys, visited)
      invariant env.calls == old(env.calls) + Concat(run, plan, i)
      invariant env.files == old(env.files) && env.pos == old(env.pos)
      invariant env.nextHandle == old(env.nextHandle) && env.freeFrames == old(env.freeFrames)
    {
      a, page := UnmapStep(spt, space, env, addr, a, page, run, i, base, plan, fileKeys, visited);
      ConcatAssoc(old(env.calls), Concat(run, plan, i), plan[run[i]]);
      visited := visited + {run[i]};
      i := i + 1;
    }
  }

  /** do_munmap: from the page at addr on, destroy one page per address step,
      as many steps as the first page's mapped_page_count, skipping addresses
      without a page. The pages stay in the SPT. */
  method DoMunmap(spt: Spt, space: Pml4, env: Env, addr: nat)
    requires spt.Valid() && space.Valid() && addr < U64
    requires PgRoundDown(addr) in spt.pages
    requires forall k :: k in UnmapRun(spt, addr) && k in spt.pages ==> Destroyable(spt.pages[k], space)
    modifies space, env
    ensures space.Valid()
    ensures env.calls == old(env.calls) + old(UnmapCalls(spt, space, addr))
    ensures space.entries == old(space.entries) - (FileBackedKeys(spt) * SetOf(UnmapRun(spt, addr)))
    ensures env.files == old(env.files) && env.pos == old(env.pos)
    ensures env.nextHandle == old(env.nextHandle) && env.freeFrames == old(env.freeFrames)
  {
    ghost var run := UnmapRun(spt, addr);
    ghost var plan := UnmapPlan(spt, space, run);
    ghost var fileKeys := FileBackedKeys(spt);
    ghost var base := space.entries;
    var page := spt.FindPage(addr);
    var count := page.mappedPageCount;
    forall j | 0 <= j < |run|
      ensures run[j] in plan
    {
      assert run[j] in run;
    }
    ghost var visited := UnmapLoop(spt, space, env, addr, page, count, run, plan, fileKeys);
    UnmappedAll(spt, space, base, run, plan, fileKeys, visited);
  }

  /** After the last step the page table has lost exactly the file-backed
      pages of the run. */
  lemma UnmappedAll(spt: Spt, space: Pml4, base: map<int, Pte>, run: seq<int>,
                    plan: map<int, seq<Call>>, fileKeys: set<int>, visited: set<int>)
    requires UnmappedUpTo(spt, space, base, run, |run|, plan, fileKeys, visited)
    ensures space.entries == base - (fileKeys * SetOf(run))
  {
    forall k | k in run
      ensures k in visited
    {
      var j :| 0 <= j < |run| && run[j] == k;
    }
    assert forall va :: va in space.entries <==> va in (base - (fileKeys * SetOf(run)));
    assert forall va :: va in space.entries ==> space.entries[va] == (base - (fileKeys * SetOf(run)))[va];
  }

  /** A mapping do_mmap accepts is shorter than a page, so its page is stamped
      with page count 0, and do_munmap at its address visits no page at all:
      it destroys nothing and makes no call. */
  lemma {:induction false} MunmapAfterMmap(spt: Spt, base: map<int, Page>, addr: nat, offset: Int32,
                                           writable: bool, rf: FileRef, length: nat)
    requires addr < U64 && addr % 4096 == 0 && length < PGSIZE
    requires MappedRun(spt, base, Upages(addr, 1), Offsets(offset, length, 1),
                       writable, rf, length, TotalPageCount(length))
    ensures PgRoundDown(addr) == addr && addr in spt.pages
    ensures UnmapRun(spt, addr) == []
  {
    assert Upages(addr, 1)[0] == addr;
    TotalPageCountRounding(length);
  }
}
