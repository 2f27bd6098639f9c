/** Loading the PT_LOAD segments of an ELF executable (userprog/process.c):
    validate_segment, the page arithmetic load does for a segment it accepts,
    and the VM build of load_segment, which registers one pending anonymous
    page per page of the segment for lazy_load_segment to fill. */
module ElfLoad {
  import opened VmTypes
  import opened Vm

  /** An unsigned 64-bit field. */
  type Word64 = x: int | 0 <= x < 0x1_0000_0000_0000_0000

  /** The fields of an ELF64 program header that load reads. */
  datatype Phdr = Phdr(pType: nat, flags: nat, offset: Word64, vaddr: Word64, filesz: Word64, memsz: Word64)

  /** PF_W, the writable bit of p_flags. */
  predicate IsWritableSegment(ph: Phdr)
  {
    (ph.flags / 2) % 2 == 1
  }

  /** validate_segment: the guards in the order the source tests them; the
      end address is computed in 64 bits and may wrap. */
  function ValidateSegment(ph: Phdr, fileLength: nat): (valid: bool)
  {
    var end := AddU64(ph.vaddr, ph.memsz);
    if ph.offset % 4096 != ph.vaddr % 4096 then false
    else if ph.offset > fileLength then false
    else if ph.memsz < ph.filesz then false
    else if ph.memsz == 0 then false
    else if !IsUserVaddr(ph.vaddr) then false
    else if !IsUserVaddr(end) then false
    else if end < ph.vaddr then false
    else if ph.vaddr < PGSIZE then false
    else true
  }

  /** A segment is valid exactly when its file and memory page offsets agree,
      it starts within the file, its memory size is positive and covers its
      file size, and its memory range, with the true end address, lies in user
      space above page 0. */
  lemma ValidateSegmentIff(ph: Phdr, fileLength: nat)
    ensures ValidateSegment(ph, fileLength)
            <==> && ph.offset % 4096 == ph.vaddr % 4096
                 && ph.offset <= fileLength
                 && ph.filesz <= ph.memsz && 0 < ph.memsz
                 && PGSIZE <= ph.vaddr && ph.vaddr + ph.memsz < KERN_BASE
  {
  }

  /** What load hands to load_segment for a valid PT_LOAD segment: the file
      page and memory page holding the segment's start, the counts of bytes to
      read and to zero (each stored in a uint32_t), and the writable flag. */
  datatype SegmentPlan = SegmentPlan(filePage: nat, memPage: nat, readBytes: nat, zeroBytes: nat,
                                     writable: bool)

  /** ROUND_UP (x, PGSIZE). */
  function RoundUpPage(x: nat): (r: nat)
  {
    (x + 4095) / 4096 * 4096
  }

  /** The value a uint32_t stores for x: x modulo 2^32. */
  function Wrap32(x: int): (r: nat)
  {
    x % 0x1_0000_0000
  }

  /** The read/zero computation of load for a segment validate_segment accepted. */
  function PlanSegment(ph: Phdr, fileLength: nat): (plan: SegmentPlan)
    requires ValidateSegment(ph, fileLength)
  {
    var pageOffset := ph.vaddr % 4096;
    var rounded := RoundUpPage(pageOffset + ph.memsz);
    var readBytes := if ph.filesz > 0 then Wrap32(pageOffset + ph.filesz) else 0;
    var zeroBytes := if ph.filesz > 0 then Wrap32(rounded - readBytes) else Wrap32(rounded);
    SegmentPlan(ph.offset - ph.offset % 4096, ph.vaddr - pageOffset, readBytes, zeroBytes,
                IsWritableSegment(ph))
  }

  /** For a segment below 4 GiB of pages, read and zero counts add up to the
      whole pages the segment touches, so load_segment's assertion holds; the
      read count covers the segment's file bytes from the start of its first
      page, and is 0 for a segment without file bytes. Both pages are aligned. */
  lemma PlanSegmentSums(ph: Phdr, fileLength: nat)
    requires ValidateSegment(ph, fileLength)
    requires RoundUpPage(ph.vaddr % 4096 + ph.memsz) < 0x1_0000_0000
    ensures var plan := PlanSegment(ph, fileLength);
            && plan.readBytes + plan.zeroBytes == RoundUpPage(ph.vaddr % 4096 + ph.memsz)
            && (plan.readBytes + plan.zeroBytes) % 4096 == 0
            && (ph.filesz == 0 ==> plan.readBytes == 0)
            && (ph.filesz > 0 ==> plan.readBytes == ph.vaddr % 4096 + ph.filesz)
            && plan.memPage % 4096 == 0 && plan.filePage % 4096 == 0
  {
    var pageOffset := ph.vaddr % 4096;
    var x := pageOffset + ph.memsz;
    assert x <= RoundUpPage(x) < x + 4096;
  }

  /** The pages of a valid segment lie in user space above page 0: from its
      memory page up to the end of the pages it touches, below KERN_BASE. */
  lemma PlanSegmentInUserSpace(ph: Phdr, fileLength: nat)
    requires ValidateSegment(ph, fileLength)
    ensures var plan := PlanSegment(ph, fileLength);
            && PGSIZE <= plan.memPage
            && plan.memPage + RoundUpPage(ph.vaddr % 4096 + ph.memsz) <= KERN_BASE
  {
    ValidateSegmentIff(ph, fileLength);
    var pageOffset := ph.vaddr % 4096;
    var x := pageOffset + ph.memsz;
    var memPage := ph.vaddr - pageOffset;
    assert memPage % 4096 == 0;
    assert memPage + x == ph.vaddr + ph.memsz;
    var q := (x + 4095) / 4096;
    var m := memPage / 4096;
    assert memPage + RoundUpPage(x) == (m + q) * 4096;
    assert (m + q) * 4096 < KERN_BASE + 4096;
  }

  // ---- load_segment ----

  /** read_bytes after k iterations: what is left after k full pages. */
  function LoadReadAt(readBytes: nat, k: nat): nat
  {
    if readBytes >= 4096 * k then readBytes - 4096 * k else 0
  }

  /** page_read_bytes of iteration k. */
  function PageReadAt(readBytes: nat, k: nat): (r: nat)
    ensures r <= PGSIZE
  {
    if LoadReadAt(readBytes, k) < PGSIZE then LoadReadAt(readBytes, k) else PGSIZE
  }

  /** ofs after k iterations: advanced by each page_read_bytes, as an off_t. */
  function LoadOfsAt(ofs: Int32, readBytes: nat, k: nat): Int32
  {
    if k == 0 then ofs else AddInt32(LoadOfsAt(ofs, readBytes, k - 1), PageReadAt(readBytes, k - 1))
  }

  /** The address of page j of a segment. */
  function SegmentVa(upage: nat, j: nat): nat
  {
    upage + 4096 * j
  }

  /** The read counts of the first k pages. */
  function SumPageReads(readBytes: nat, k: nat): nat
  {
    if k == 0 then 0 else SumPageReads(readBytes, k - 1) + PageReadAt(readBytes, k - 1)
  }

  /** The pages read the segment's bytes in turn: the first k pages read what
      read_bytes has lost by then, so together they read all of it. */
  lemma {:induction false} PageReadsPartition(readBytes: nat, k: nat)
    ensures SumPageReads(readBytes, k) == readBytes - LoadReadAt(readBytes, k)
    ensures 4096 * k >= readBytes ==> SumPageReads(readBytes, k) == readBytes
  {
    if k > 0 {
      PageReadsPartition(readBytes, k - 1);
    }
  }

  /** Page k reads the file from ofs plus the bytes the earlier pages read,
      wrapped to an off_t. */
  lemma {:induction false} LoadOfsAtIs(ofs: Int32, readBytes: nat, k: nat)
    ensures LoadOfsAt(ofs, readBytes, k) == ToInt32(ofs + SumPageReads(readBytes, k))
  {
    if k == 0 {
      assert ToInt32(ofs) == ofs;
    } else {
      LoadOfsAtIs(ofs, readBytes, k - 1);
      var prev := LoadOfsAt(ofs, readBytes, k - 1);
      var x := ofs + SumPageReads(readBytes, k - 1);
      assert prev == ToInt32(x);
      AddInt32Wraps(prev, x, PageReadAt(readBytes, k - 1));
    }
  }

  /** A page of a segment: pending VM_ANON with lazy_load_segment, and a
      container holding the file, the page's offset and its read and zero counts. */
  ghost predicate IsSegmentPage(p: Page, va: int, writable: bool, file: FileRef, off: int, pageRead: nat)
    reads p, AuxSet(p.payload)
  {
    && p.payload.Uninit? && p.payload.aux != null
    && IsPending(p, va, writable, LazyLoadInit, VmAnon, p.payload.aux)
    && Snap(p.payload.aux) == AuxSnap(file, off, pageRead, PGSIZE - pageRead)
  }

  /** The ofs values of the first k iterations. */
  function LoadOffsets(ofs: Int32, readBytes: nat, k: nat): (r: seq<int>)
    ensures |r| == k
  {
    if k == 0 then [] else LoadOffsets(ofs, readBytes, k - 1) + [LoadOfsAt(ofs, readBytes, k - 1)]
  }

  /** The page_read_bytes values of the first k iterations. */
  function PageReads(readBytes: nat, k: nat): (r: seq<nat>)
    ensures |r| == k
  {
    if k == 0 then [] else PageReads(readBytes, k - 1) + [PageReadAt(readBytes, k - 1)]
  }

  /** Page j of the first k reads min(PGSIZE, what is left of read_bytes
      after j pages) bytes, from ofs plus what the pages before it read. */
  lemma {:induction false} LoadOffsetsAt(ofs: Int32, readBytes: nat, k: nat, j: nat)
    requires j < k
    ensures PageReads(readBytes, k)[j] == PageReadAt(readBytes, j)
    ensures PageReadAt(readBytes, j) == Min(PGSIZE, LoadReadAt(readBytes, j))
    ensures LoadOffsets(ofs, readBytes, k)[j] == ToInt32(ofs + SumPageReads(readBytes, j))
  {
    if j < k - 1 {
      LoadOffsetsAt(ofs, readBytes, k - 1, j);
    } else {
      LoadOfsAtIs(ofs, readBytes, j);
    }
  }

  /** load_segment part way: the pages there were are kept, and the pages
      registered so far are the segment's first |offs| pages, page j with the
      offset offs[j] and the read count counts[j], and nothing else. */
  ghost predicate SegmentRun(spt: Spt, base: map<int, Page>, upage0: nat, offs: seq<int>, counts: seq<nat>,
                             file: FileRef, writable: bool)
    reads *
  {
    && spt.Valid() && |counts| == |offs|
    && (forall va :: va in base ==> va in spt.pages && spt.pages[va] == base[va])
    && (forall va :: va in spt.pages ==> va in base || upage0 <= va < upage0 + 4096 * |offs|)
    && (forall j :: 0 <= j < |offs| ==>
          && SegmentVa(upage0, j) !in base && SegmentVa(upage0, j) in spt.pages
          && IsSegmentPage(spt.pages[SegmentVa(upage0, j)], SegmentVa(upage0, j), writable, file,
                           offs[j], counts[j]))
  }

  /** The loop variables of load_segment after k iterations. */
  ghost predicate LoadCursor(upage0: nat, ofs0: Int32, readBytes0: nat, zeroBytes0: nat, k: nat,
                             readBytes: nat, zeroBytes: nat, upage: nat, ofs: Int32)
  {
    && (readBytes0 + zeroBytes0) % 4096 == 0 && 4096 * k <= readBytes0 + zeroBytes0
    && upage0 % 4096 == 0 && upage0 + readBytes0 + zeroBytes0 <= U64
    && readBytes == LoadReadAt(readBytes0, k)
    && readBytes + zeroBytes == readBytes0 + zeroBytes0 - 4096 * k
    && upage == upage0 + 4096 * k && upage % 4096 == 0 && ofs == LoadOfsAt(ofs0, readBytes0, k)
  }

  /** The advance at the end of an iteration that runs: neither uint32_t
      count goes below zero, and the variables are those of the next iteration. */
  lemma LoadAdvance(upage0: nat, ofs0: Int32, readBytes0: nat, zeroBytes0: nat, k: nat,
                    readBytes: nat, zeroBytes: nat, upage: nat, ofs: Int32)
    requires readBytes > 0 || zeroBytes > 0
    requires LoadCursor(upage0, ofs0, readBytes0, zeroBytes0, k, readBytes, zeroBytes, upage, ofs)
    ensures 4096 * (k + 1) <= readBytes0 + zeroBytes0
    ensures var pageRead := if readBytes < PGSIZE then readBytes else PGSIZE;
            && pageRead == PageReadAt(readBytes0, k)
            && zeroBytes >= PGSIZE - pageRead
            && LoadCursor(upage0, ofs0, readBytes0, zeroBytes0, k + 1, readBytes - pageRead,
                          zeroBytes - (PGSIZE - pageRead), upage + PGSIZE, AddInt32(ofs, pageRead))
  {
    var n := (readBytes0 + zeroBytes0) / 4096;
    assert readBytes0 + zeroBytes0 == 4096 * n;
    assert 4096 * k < 4096 * n;
    assert k < n;
    assert 4096 * (k + 1) <= 4096 * n;
    assert readBytes + zeroBytes == 4096 * (n - k);
  }

  /** The allocation of one iteration of load_segment: a container for page k
      of the segment and a pending VM_ANON page carrying it, or false and
      nothing changed when the page is taken. */
  method RegisterSegmentPage(spt: Spt, file: FileRef, writable: bool, upage: nat, ofs: Int32, pageRead: nat,
                             ghost base: map<int, Page>, ghost upage0: nat, ghost offs: seq<int>,
                             ghost counts: seq<nat>)
    returns (ok: bool)
    requires SegmentRun(spt, base, upage0, offs, counts, file, writable)
    requires upage == SegmentVa(upage0, |offs|) && upage % 4096 == 0 && pageRead <= PGSIZE
    modifies spt
    ensures ok <==> upage !in old(spt.pages)
    ensures !ok ==> spt.pages == old(spt.pages)
    ensures ok ==> && upage in spt.pages && fresh(spt.pages[upage])
                   && spt.pages == old(spt.pages)[upage := spt.pages[upage]]
                   && SegmentRun(spt, base, upage0, offs + [ofs], counts + [pageRead], file, writable)
  {
    var container := new Container(file, ofs, pageRead, PGSIZE - pageRead);
    assert PgRoundDown(upage) == upage;
    ok := AllocPageWithInitializer(spt, VmAnon, upage, writable, LazyLoadInit, container);
  }

  /** One iteration of load_segment once the iteration is known to run: the
      page is registered, or nothing changes when it is taken; then the loop
      variables advance to the next page. */
  method LoadStep(spt: Spt, file: FileRef, writable: bool, ghost base: map<int, Page>, ghost upage0: nat,
                  ghost ofs0: Int32, ghost readBytes0: nat, ghost zeroBytes0: nat, ghost k: nat,
                  readBytes: nat, zeroBytes: nat, upage: nat, ofs: Int32)
    returns (ok: bool, readBytes': nat, zeroBytes': nat, upage': nat, ofs': Int32)
    requires readBytes > 0 || zeroBytes > 0
    requires LoadCursor(upage0, ofs0, readBytes0, zeroBytes0, k, readBytes, zeroBytes, upage, ofs)
    requires SegmentRun(spt, base, upage0, LoadOffsets(ofs0, readBytes0, k), PageReads(readBytes0, k),
                        file, writable)
    modifies spt
    ensures 4096 * (k + 1) <= readBytes0 + zeroBytes0
    ensures ok <==> upage !in old(spt.pages)
    ensures !ok ==> spt.pages == old(spt.pages)
    ensures ok ==> && upage in spt.pages && fresh(spt.pages[upage])
                   && spt.pages == old(spt.pages)[upage := spt.pages[upage]]
                   && SegmentRun(spt, base, upage0, LoadOffsets(ofs0, readBytes0, k + 1),
                                 PageReads(readBytes0, k + 1), file, writable)
                   && LoadCursor(upage0, ofs0, readBytes0, zeroBytes0, k + 1,
                                 readBytes', zeroBytes', upage', ofs')
  {
    LoadAdvance(upage0, ofs0, readBytes0, zeroBytes0, k, readBytes, zeroBytes, upage, ofs);
    var pageReadBytes := if readBytes < PGSIZE then readBytes else PGSIZE;
    var pageZeroBytes := PGSIZE - pageReadBytes;
    ok := RegisterSegmentPage(spt, file, writable, upage, ofs, pageReadBytes, base, upage0,
                              LoadOffsets(ofs0, readBytes0, k), PageReads(readBytes0, k));
    if !ok {
      return ok, readBytes, zeroBytes, upage, ofs;
    }
    readBytes' := readBytes - pageReadBytes;
    zeroBytes' := zeroBytes - pageZeroBytes;
    upage' := upage + PGSIZE;
    ofs' := AddInt32(ofs, pageReadBytes);
  }

  /** load_segment (VM build): register one pending VM_ANON page per page of
      the segment, each to be filled by lazy_load_segment with its share of
      the read bytes; fail at the first page that is already taken (the pages
      registered before it stay registered). It succeeds exactly when none of
      the segment's pages is taken, and then has registered all of them. */
  method LoadSegment(spt: Spt, file: FileRef, ofs: Int32, upage: nat, readBytes: nat, zeroBytes: nat,
                     writable: bool) returns (ok: bool, ghost k: nat)
    requires spt.Valid()
    requires (readBytes + zeroBytes) % 4096 == 0 && upage % 4096 == 0 && ofs % 4096 == 0
    requires upage + readBytes + zeroBytes <= U64
    modifies spt
    ensures 4096 * k <= readBytes + zeroBytes
    ensures SegmentRun(spt, old(spt.pages), upage, LoadOffsets(ofs, readBytes, k), PageReads(readBytes, k),
                       file, writable)
    ensures forall va :: va in spt.pages && va !in old(spt.pages) ==> fresh(spt.pages[va])
    ensures ok ==> 4096 * k == readBytes + zeroBytes
    ensures !ok ==> SegmentVa(upage, k) in old(spt.pages)
    ensures ok <==> forall j :: 0 <= j < (readBytes + zeroBytes) / 4096 ==> SegmentVa(upage, j) !in old(spt.pages)
  {
    ghost var base := spt.pages;
    var read := readBytes;
    var zero := zeroBytes;
    var page := upage;
    var off := ofs;
    k := 0;
    while read > 0 || zero > 0
      modifies spt
      invariant LoadCursor(upage, ofs, readBytes, zeroBytes, k, read, zero, page, off)
      invariant SegmentRun(spt, base, upage, LoadOffsets(ofs, readBytes, k), PageReads(readBytes, k),
                           file, writable)
      invariant forall va :: va in spt.pages && va !in base ==> fresh(spt.pages[va])
      decreases read + zero
    {
      var stepOk;
      stepOk, read, zero, page, off := LoadStep(spt, file, writable, base, upage, ofs, readBytes, zeroBytes,
                                                k, read, zero, page, off);
      if !stepOk {
        LoadFailed(spt, base, upage, k, file, ofs, readBytes, zeroBytes, writable);
        return false, k;
      }
      k := k + 1;
    }
    LoadDone(spt, base, upage, k, file, ofs, readBytes, zeroBytes, writable);
    ok := true;
  }

  /** A run stopped at a taken page: not every page of the segment was free. */
  lemma LoadFailed(spt: Spt, base: map<int, Page>, upage: nat, k: nat, file: FileRef, ofs: Int32,
                   readBytes: nat, zeroBytes: nat, writable: bool)
    requires (readBytes + zeroBytes) % 4096 == 0 && 4096 * (k + 1) <= readBytes + zeroBytes
    requires SegmentVa(upage, k) in base
    ensures !forall j :: 0 <= j < (readBytes + zeroBytes) / 4096 ==> SegmentVa(upage, j) !in base
  {
    var n := (readBytes + zeroBytes) / 4096;
    assert readBytes + zeroBytes == 4096 * n;
    assert k < n;
  }

  /** A run that covered the whole segment found every page free. */
  lemma LoadDone(spt: Spt, base: map<int, Page>, upage: nat, k: nat, file: FileRef, ofs: Int32,
                 readBytes: nat, zeroBytes: nat, writable: bool)
    requires (readBytes + zeroBytes) % 4096 == 0 && 4096 * k == readBytes + zeroBytes
    requires SegmentRun(spt, base, upage, LoadOffsets(ofs, readBytes, k), PageReads(readBytes, k), file, writable)
    ensures forall j :: 0 <= j < (readBytes + zeroBytes) / 4096 ==> SegmentVa(upage, j) !in base
  {
    var n := (readBytes + zeroBytes) / 4096;
    assert readBytes + zeroBytes == 4096 * n;
    assert k == n;
  }
}
