/** The generic virtual-memory layer of vm/vm.c: the supplemental page table
    (SPT) of a process, page allocation and claiming, the page-fault handler
    with stack growth, and copying and destroying a whole SPT. */
module Vm {
  import opened VmTypes
  import Uninit
  import FilePage

  /** The supplemental page table of one process: its pages by page address. */
  class Spt {
    var pages: map<int, Page>

    /** Every page is filed under its own va, which is page-aligned. */
    ghost predicate Valid()
      reads this, pages.Values
    {
      forall k :: k in pages ==> pages[k].va == k && k >= 0 && k % PGSIZE == 0
    }

    /** supplemental_page_table_init */
    constructor ()
      ensures Valid() && pages == map[]
    {
      pages := map[];
    }

    /** spt_find_page: the page covering va, that is the entry at
        pg_round_down(va), or null when there is none. */
    function FindPage(va: nat): (p: Page?)
      requires Valid()
      reads this, pages.Values
      ensures p == null <==> PgRoundDown(va) !in pages
      ensures p != null ==> p in pages.Values && p.va == PgRoundDown(va) && p.va <= va < p.va + PGSIZE
    {
      var k := PgRoundDown(va);
      if k in pages then pages[k] else null
    }

    /** spt_insert_page: hash_insert refuses a page whose va is already a key. */
    method InsertPage(page: Page) returns (ok: bool)
      requires Valid() && page.va >= 0 && page.va % PGSIZE == 0
      modifies this
      ensures Valid()
      ensures ok <==> old(page.va !in pages)
      ensures ok ==> pages == old(pages)[page.va := page]
      ensures !ok ==> pages == old(pages)
    {
      if page.va in pages {
        ok := false;
      } else {
        pages := pages[page.va := page];
        ok := true;
      }
    }
  }

  /** Every address of a registered page's range finds that page. */
  lemma {:induction false} FindPageCoversPage(spt: Spt, k: int, a: nat)
    requires spt.Valid() && k in spt.pages && k <= a < k + PGSIZE
    ensures spt.FindPage(a) == spt.pages[k]
  {
    var r := PgRoundDown(a);
    assert k % PGSIZE == 0;
    assert r <= a < r + PGSIZE && r % PGSIZE == 0;
    AlignedWithinPage(k, r);
  }

  /** Two page-aligned addresses less than a page apart are equal. */
  lemma AlignedWithinPage(x: int, y: int)
    requires x % PGSIZE == 0 && y % PGSIZE == 0 && x - PGSIZE < y < x + PGSIZE
    ensures x == y
  {
    var d := y / PGSIZE - x / PGSIZE;
    assert y - x == d * PGSIZE;
  }

  /** page_less: the hash table orders pages by va. */
  predicate PageLess(a: Page, b: Page)
    reads a, b
  {
    a.va < b.va
  }

  /** Within one SPT, page_less is a strict total order: two pages neither of
      which is less than the other are the same page, which is what lets the
      hash table treat an equal va as the same entry. */
  lemma PageLessTotal(spt: Spt, ka: int, kb: int)
    requires spt.Valid() && ka in spt.pages && kb in spt.pages
    ensures !PageLess(spt.pages[ka], spt.pages[ka])
    ensures PageLess(spt.pages[ka], spt.pages[kb]) ==> !PageLess(spt.pages[kb], spt.pages[ka])
    ensures !PageLess(spt.pages[ka], spt.pages[kb]) && !PageLess(spt.pages[kb], spt.pages[ka])
            <==> spt.pages[ka] == spt.pages[kb]
  {
  }

  /** A page as vm_alloc_page_with_initializer leaves it: pending, at va, with
      no frame and the initializer the target type calls for. */
  ghost predicate IsPending(p: Page, va: int, writable: bool, init: Init, target: VmType, aux: Container?)
    reads p
  {
    && p.va == va && p.writable == writable && p.frame == null
    && p.payload == Uninit(init, target, aux, InitializerFor(target))
    && p.mappedPageCount == 0
  }

  /** vm_alloc_page_with_initializer (vm_alloc_page is the same with no
      callback and no container): a new pending page at pg_round_down(upage),
      or false and nothing changed when that page is taken. */
  method AllocPageWithInitializer(spt: Spt, target: VmType, upage: nat, writable: bool,
                                  init: Init, aux: Container?) returns (ok: bool)
    requires spt.Valid()
    modifies spt
    ensures spt.Valid()
    ensures var va := PgRoundDown(upage);
            && (ok <==> va !in old(spt.pages))
            && (!ok ==> spt.pages == old(spt.pages))
            && (ok ==> && va in spt.pages && fresh(spt.pages[va])
                       && spt.pages == old(spt.pages)[va := spt.pages[va]]
                       && IsPending(spt.pages[va], va, writable, init, target, aux))
  {
    var va := PgRoundDown(upage);
    if spt.FindPage(upage) == null {
      var page := new Page();
      match target {
        case VmAnon =>
          Uninit.UninitNew(page, va, init, target, aux, AnonInit);
        case VmFile =>
          Uninit.UninitNew(page, va, init, target, aux, FileInit);
      }
      page.writable := writable;
      ok := spt.InsertPage(page);
    } else {
      ok := false;
    }
  }

  /** page_get_type: the type a page has, or for a pending page the type it
      will have once initialized. */
  function PageGetType(page: Page): (t: VmType)
    reads page
    ensures page.payload.Uninit? && page.payload.initializer == InitializerFor(page.payload.target)
            ==> forall a :: t == PayloadType(Uninit.Transmuted(page.payload, a))
  {
    PayloadType(page.payload)
  }

  /** vm_get_frame: a new frame that belongs to no page, holding a user-pool
      page, or a null kva once the pool is exhausted (there is no eviction). */
  method GetFrame(env: Env) returns (frame: Frame)
    modifies env
    ensures fresh(frame) && frame.page == null
    ensures old(env.freeFrames) > 0 ==> frame.kva != null && fresh(frame.kva) && frame.kva.Length == PGSIZE
    ensures old(env.freeFrames) == 0 ==> frame.kva == null
    ensures env.freeFrames == if old(env.freeFrames) > 0 then old(env.freeFrames) - 1 else 0
    ensures env.files == old(env.files) && env.pos == old(env.pos)
    ensures env.nextHandle == old(env.nextHandle) && env.calls == old(env.calls)
  {
    var kva := env.PallocGetPage();
    frame := new Frame(kva);
  }

  /** What vm_do_claim_page needs of its page: a user va (pml4_get_page asserts
      it), and unless the va is already mapped a free frame and an aligned va,
      since pml4_set_page asserts both alignment and a real kva; a pending page
      must also be ready for uninit_initialize. */
  ghost predicate ClaimPre(page: Page, space: Pml4, env: Env)
    reads page, AuxSet(page.payload), space, env
  {
    && env.Valid() && space.Valid() && IsUserVaddr(page.va)
    && (page.va in space.entries || (env.freeFrames > 0 && page.va >= 0 && page.va % PGSIZE == 0))
    && (page.payload.Uninit? ==> Uninit.ClaimReady(page.payload, env))
  }

  /** The effect of swap_in on a freshly mapped page: uninit_initialize for a
      pending page; for an anonymous or file-backed page, swap-in code that is
      not part of this model and whose result is the parameter stubOk. */
  twostate predicate SwappedIn(page: Page, env: Env, stubOk: bool, ok: bool)
    requires page.frame != null && page.frame.kva != null
    reads page, page.frame, page.frame.kva, env
  {
    var u := old(page.payload);
    var kva := page.frame.kva;
    && env.files == old(env.files) && env.nextHandle == old(env.nextHandle)
    && match u
       case Uninit(init, _, aux, _) =>
         && page.payload == Uninit.Transmuted(u, old(Snap(aux)))
         && (init == NoInit ==>
               && ok && env.pos == old(env.pos) && env.calls == old(env.calls)
               && env.freeFrames == old(env.freeFrames) - 1)
         && (init == LazyLoadInit ==>
               var a := old(Snap(aux));
               && a.file in old(env.files) && a.offset >= 0 && 0 <= a.readBytes <= PGSIZE
               && var got := FileRead(old(env.files[a.file]), a.offset, a.readBytes);
               && ok == (|got| == a.readBytes)
               && env.pos == old(env.pos)[a.file := a.offset + |got|]
               && (ok ==> && kva.Length == PGSIZE && kva[..] == got + Zeros(PGSIZE - a.readBytes)
                          && env.calls == old(env.calls) && env.freeFrames == old(env.freeFrames) - 1)
               && (!ok ==> && env.calls == old(env.calls) + [FreeUserPage(kva)]
                           && env.freeFrames == old(env.freeFrames)))
       case _ =>
         && ok == stubOk && page.payload == u
         && env.pos == old(env.pos) && env.calls == old(env.calls)
         && env.freeFrames == old(env.freeFrames) - 1
  }

  /** The outcome of vm_do_claim_page: the new frame and the page are linked
      both ways; when the va was already mapped nothing is installed, swap_in
      does not run and the claim fails; otherwise the va is mapped to the frame
      with the page's writable bit and the result is that of swap_in. */
  twostate predicate Claimed(page: Page, space: Pml4, env: Env, stubOk: bool, ok: bool)
    reads page, page.frame, space, env
    reads if page.frame != null && page.frame.kva != null then {page.frame.kva} else {}
  {
    && page.va == old(page.va) && page.writable == old(page.writable)
    && page.mappedPageCount == old(page.mappedPageCount)
    && page.frame != null && fresh(page.frame) && page.frame.page == page
    && (if old(env.freeFrames) > 0
        then page.frame.kva != null && fresh(page.frame.kva) && page.frame.kva.Length == PGSIZE
        else page.frame.kva == null)
    && if old(page.va in space.entries) then
         && !ok && page.payload == old(page.payload)
         && space.entries == old(space.entries)
         && env.files == old(env.files) && env.nextHandle == old(env.nextHandle)
         && env.pos == old(env.pos) && env.calls == old(env.calls)
         && env.freeFrames == (if old(env.freeFrames) > 0 then old(env.freeFrames) - 1 else 0)
       else
         && page.frame.kva != null
         && space.entries == old(space.entries)[page.va := Pte(page.frame.kva, page.writable, false)]
         && SwappedIn(page, env, stubOk, ok)
  }

  /** vm_do_claim_page */
  method DoClaimPage(page: Page, space: Pml4, env: Env, stubOk: bool) returns (ok: bool)
    requires ClaimPre(page, space, env)
    modifies page, space, env
    ensures space.Valid() && env.Valid()
    ensures Claimed(page, space, env, stubOk, ok)
  {
    var frame := GetFrame(env);
    // set links
    frame.page := page;
    page.frame := frame;
    var success := false;
    if page.va !in space.entries {
      // pml4_get_page found nothing: pml4_set_page installs the mapping
      var kva := frame.kva;
      space.entries := space.entries[page.va := Pte(kva, page.writable, false)];
      success := true;
    }
    if success {
      var kva := frame.kva;
      match page.payload {
        case Uninit(_, _, _, _) =>
          ok := Uninit.UninitInitialize(page, kva, env);
        case Anon =>
          ok := stubOk;
        case FileBacked(_, _, _) =>
          ok := stubOk;
      }
    } else {
      ok := false;
    }
  }

  /** vm_claim_page: claim the page registered at va. The source does not
      return when there is none (its `false;` is a no-op), so a registered page
      is required. */
  method ClaimPage(spt: Spt, space: Pml4, env: Env, va: nat, stubOk: bool) returns (ok: bool)
    requires spt.Valid() && spt.FindPage(va) != null && ClaimPre(spt.FindPage(va), space, env)
    modifies spt.FindPage(va), space, env
    ensures spt.Valid() && space.Valid() && env.Valid()
    ensures Claimed(old(spt.FindPage(va)), space, env, stubOk, ok)
  {
    var page := spt.FindPage(va);
    ok := DoClaimPage(page, space, env, stubOk);
  }

  /** The decision vm_try_handle_fault takes before acting. */
  datatype FaultAction = Reject | GrowStack | Claim(page: Page)

  /** The stack pointer the handler consults: the interrupt frame's for a user
      fault, the one the thread saved on entering the kernel otherwise. */
  function FaultRsp(frameRsp: nat, threadRsp: nat, user: bool): nat
  {
    if user then frameRsp else threadRsp
  }

  /** The stack-growth window: USER_STACK - 1 MiB <= rsp - 8 <= addr <= USER_STACK,
      where rsp - 8 is an unsigned 64-bit subtraction. */
  predicate InStackWindow(rsp: nat, addr: nat)
  {
    USER_STACK - STACK_LIMIT <= Wrap64(rsp - 8) <= addr <= USER_STACK
  }

  /** The decision of vm_try_handle_fault: reject a kernel address and a fault
      on a present page; grow the stack inside the window; otherwise claim the
      registered page unless there is none or a write hits a read-only page. */
  function ClassifyFault(spt: Spt, addr: nat, frameRsp: nat, threadRsp: nat,
                         user: bool, write: bool, notPresent: bool): (r: FaultAction)
    requires spt.Valid()
    reads spt, spt.pages.Values
    ensures IsKernelVaddr(addr) || !notPresent ==> r == Reject
    ensures r == GrowStack <==>
              IsUserVaddr(addr) && notPresent && InStackWindow(FaultRsp(frameRsp, threadRsp, user), addr)
    ensures r.Claim? ==>
              && IsUserVaddr(addr) && notPresent
              && r.page == spt.FindPage(addr) && r.page.va == PgRoundDown(addr)
              && (write ==> r.page.writable)
    ensures r == Reject && IsUserVaddr(addr) && notPresent
              && !InStackWindow(FaultRsp(frameRsp, threadRsp, user), addr)
            ==> spt.FindPage(addr) == null || (write && !spt.FindPage(addr).writable)
  {
    if IsKernelVaddr(addr) then Reject
    else if !notPresent then Reject
    else if InStackWindow(FaultRsp(frameRsp, threadRsp, user), addr) then GrowStack
    else
      var page := spt.FindPage(addr);
      if page == null then Reject
      else if write && !page.writable then Reject
      else Claim(page)
  }

  /** A fault the handler sends to stack growth lies at most 1 MiB below
      USER_STACK and at most at USER_STACK itself. */
  lemma GrowStackWithinLimit(spt: Spt, addr: nat, frameRsp: nat, threadRsp: nat,
                             user: bool, write: bool, notPresent: bool)
    requires spt.Valid()
    requires ClassifyFault(spt, addr, frameRsp, threadRsp, user, write, notPresent) == GrowStack
    ensures USER_STACK - STACK_LIMIT <= addr <= USER_STACK
    ensures USER_STACK - STACK_LIMIT <= PgRoundDown(addr) <= USER_STACK
  {
    var rsp := FaultRsp(frameRsp, threadRsp, user);
    assert InStackWindow(rsp, addr);
    assert (USER_STACK - STACK_LIMIT) % PGSIZE == 0;
  }

  /** The window's upper bound is inclusive, so a fault at USER_STACK itself,
      the first byte above the stack, grows a page there. */
  lemma {:induction false} StackTopFaultGrows(spt: Spt)
    requires spt.Valid()
    ensures ClassifyFault(spt, USER_STACK, USER_STACK, 0, true, true, true) == GrowStack
    ensures PgRoundDown(USER_STACK) == USER_STACK
  {
    assert Wrap64(USER_STACK - 8) == USER_STACK - 8;
  }

  /** With rsp below 8 the subtraction rsp - 8 wraps to a huge value, so such a
      fault never grows the stack. */
  lemma {:induction false} LowRspNeverGrows(spt: Spt, addr: nat, frameRsp: nat, threadRsp: nat,
                                            user: bool, write: bool, notPresent: bool)
    requires spt.Valid() && addr < U64 && FaultRsp(frameRsp, threadRsp, user) < 8
    ensures ClassifyFault(spt, addr, frameRsp, threadRsp, user, write, notPresent) != GrowStack
  {
    var rsp: int := FaultRsp(frameRsp, threadRsp, user);
    assert Wrap64(rsp - 8) == U64 + rsp - 8;
  }

  /** What a handled fault needs: the faulting page is not mapped (the fault
      is not-present), a frame is free (a null kva would reach pml4_set_page),
      and a pending page found there is ready for uninit_initialize. */
  ghost predicate FaultPre(spt: Spt, space: Pml4, env: Env, addr: nat)
    requires spt.Valid()
    reads spt, spt.pages.Values, space, env
    reads if spt.FindPage(addr) == null then {} else AuxSet(spt.FindPage(addr).payload)
  {
    && IsUserVaddr(addr) && env.freeFrames > 0
    && (var p := spt.FindPage(addr);
        p != null && p.payload.Uninit? ==> Uninit.ClaimReady(p.payload, env))
  }

  /** The state after vm_stack_growth at addr: a page was registered at
      pg_round_down(addr) unless one was already there; if it is new it is an
      anonymous writable page mapped to a fresh frame; if it was there the
      claim ran on it with whatever result. */
  twostate predicate StackGrown(spt: Spt, space: Pml4, env: Env, addr: nat, stubOk: bool)
    reads spt, spt.pages.Values, space, env
    reads set p | p in spt.pages.Values :: p.frame
    reads set p | p in spt.pages.Values && p.frame != null && p.frame.kva != null :: p.frame.kva
  {
    var va := PgRoundDown(addr);
    && va in spt.pages
    && if old(va in spt.pages) then
         && spt.pages == old(spt.pages)
         && (Claimed(old(spt.pages[va]), space, env, stubOk, true)
             || Claimed(old(spt.pages[va]), space, env, stubOk, false))
       else
         var p := spt.pages[va];
         && fresh(p) && spt.pages == old(spt.pages)[va := p]
         && p.va == va && p.writable && p.payload == Anon && p.mappedPageCount == 0
         && p.frame != null && fresh(p.frame) && p.frame.page == p
         && p.frame.kva != null && fresh(p.frame.kva) && p.frame.kva.Length == PGSIZE
         && space.entries == old(space.entries)[va := Pte(p.frame.kva, true, false)]
         && env.files == old(env.files) && env.pos == old(env.pos) && env.calls == old(env.calls)
         && env.nextHandle == old(env.nextHandle) && env.freeFrames == old(env.freeFrames) - 1
  }

  /** vm_stack_growth: register a writable anonymous page at pg_round_down(addr)
      and claim the page at that address, whether or not the registration
      succeeded; the claim's result is dropped. */
  method StackGrowth(spt: Spt, space: Pml4, env: Env, addr: nat, stubOk: bool)
    requires spt.Valid() && space.Valid() && env.Valid()
    requires PgRoundDown(addr) !in space.entries
    requires FaultPre(spt, space, env, addr)
    modifies spt, space, env, spt.FindPage(addr)
    ensures spt.Valid() && space.Valid() && env.Valid()
    ensures StackGrown(spt, space, env, addr, stubOk)
  {
    var va := PgRoundDown(addr);
    var _ := AllocPageWithInitializer(spt, VmAnon, va, true, NoInit, null);
    var _ := ClaimPage(spt, space, env, va, stubOk);
  }

  /** vm_try_handle_fault: false for a rejected fault with nothing changed;
      true after stack growth, whatever the growth did; otherwise the result
      of claiming the page found. */
  method TryHandleFault(spt: Spt, space: Pml4, env: Env, addr: nat, frameRsp: nat, threadRsp: nat,
                        user: bool, write: bool, notPresent: bool, stubOk: bool) returns (ok: bool)
    requires spt.Valid() && space.Valid() && env.Valid()
    requires notPresent ==> PgRoundDown(addr) !in space.entries
    requires ClassifyFault(spt, addr, frameRsp, threadRsp, user, write, notPresent) != Reject
             ==> FaultPre(spt, space, env, addr)
    modifies spt, space, env, spt.FindPage(addr)
    ensures spt.Valid() && space.Valid() && env.Valid()
    ensures var act := old(ClassifyFault(spt, addr, frameRsp, threadRsp, user, write, notPresent));
            && (act == Reject ==> !ok && unchanged(spt, space, env) && unchanged(old(spt.pages.Values)))
            && (act == GrowStack ==> ok && StackGrown(spt, space, env, addr, stubOk))
            && (act.Claim? ==> spt.pages == old(spt.pages) && Claimed(act.page, space, env, stubOk, ok))
  {
    var act := ClassifyFault(spt, addr, frameRsp, threadRsp, user, write, notPresent);
    match act {
      case Reject =>
        ok := false;
      case GrowStack =>
        StackGrowth(spt, space, env, addr, stubOk);
        ok := true;
      case Claim(page) =>
        ok := DoClaimPage(page, space, env, stubOk);
    }
  }

  /** What destroy dereferences: the container of a pending VM_FILE page, and
      read_bytes of a dirty file-backed page, which must fit in its frame. */
  ghost predicate Destroyable(p: Page, space: Pml4)
    reads p, space
  {
    match p.payload
    case Uninit(_, t, aux, _) => t == VmFile ==> aux != null
    case Anon => true
    case FileBacked(_, _, rb) => space.IsDirty(p.va) ==> 0 <= rb <= PGSIZE
  }

  /** The frames a page table maps, whose bytes a write-back reads. */
  ghost function MappedFrames(space: Pml4): set<object>
    reads space
  {
    set va | va in space.entries :: space.entries[va].kva
  }

  /** The calls destroy makes for a page, by variant; anon_destroy (vm/anon.c)
      is not part of this model and makes none. */
  ghost function DestroyCalls(p: Page, space: Pml4): seq<Call>
    requires space.Valid() && Destroyable(p, space)
    reads p, AuxSet(p.payload), space
    reads if p.payload.FileBacked? && space.IsDirty(p.va) then {space.entries[p.va].kva} else {}
  {
    match p.payload
    case Uninit(_, _, _, _) => Uninit.UninitDestroyCalls(p.payload)
    case Anon => []
    case FileBacked(_, _, _) => FilePage.FileDestroyCalls(p.payload, p.va, space)
  }

  /** destroy(page): dispatch to the destroy operation of the page's variant;
      only a file-backed page loses its hardware mapping. */
  method Destroy(page: Page, space: Pml4, env: Env)
    requires space.Valid() && Destroyable(page, space)
    modifies space, env
    ensures space.Valid()
    ensures space.entries == if old(page.payload.FileBacked?) then old(space.entries) - {page.va}
                             else old(space.entries)
    ensures env.calls == old(env.calls) + old(DestroyCalls(page, space))
    ensures env.files == old(env.files) && env.pos == old(env.pos)
    ensures env.nextHandle == old(env.nextHandle) && env.freeFrames == old(env.freeFrames)
    ensures forall q: Page {:trigger DestroyCalls(q, space)} ::
              old(allocated(q)) && q.va != page.va && old(Destroyable(q, space)) ==>
                Destroyable(q, space) && DestroyCalls(q, space) == old(DestroyCalls(q, space))
  {
    match page.payload {
      case Uninit(_, _, _, _) =>
        Uninit.UninitDestroy(page, env);
      case Anon =>
      case FileBacked(_, _, _) =>
        FilePage.FileBackedDestroy(page, space, env);
        // another page keeps its entry and the bytes of the frame it maps
        forall q: Page | old(allocated(q)) && q.va != page.va && old(Destroyable(q, space))
          ensures Destroyable(q, space) && DestroyCalls(q, space) == old(DestroyCalls(q, space))
        {
          if q.va in space.entries {
            assert space.entries[q.va].kva[..] == old(space.entries[q.va].kva[..]);
          }
        }
    }
  }

  /** hash_page_destory: destroy the page, then free the struct page. */
  method HashPageDestroy(page: Page, space: Pml4, env: Env)
    requires space.Valid() && Destroyable(page, space)
    modifies space, env
    ensures space.Valid()
    ensures space.entries == if old(page.payload.FileBacked?) then old(space.entries) - {page.va}
                             else old(space.entries)
    ensures env.calls == old(env.calls) + old(DestroyCalls(page, space)) + [FreePage(page)]
    ensures env.files == old(env.files) && env.pos == old(env.pos)
    ensures env.nextHandle == old(env.nextHandle) && env.freeFrames == old(env.freeFrames)
    ensures forall q: Page {:trigger DestroyCalls(q, space)} ::
              old(allocated(q)) && q.va != page.va && old(Destroyable(q, space)) ==>
                Destroyable(q, space) && DestroyCalls(q, space) == old(DestroyCalls(q, space))
  {
    Destroy(page, space, env);
    label destroyed:
    env.calls := env.calls + [FreePage(page)];
    // freeing the struct changes only the log, which no page's destroy reads
    forall q: Page | old(allocated(q)) && q.va != page.va && old(Destroyable(q, space))
      ensures Destroyable(q, space) && DestroyCalls(q, space) == old(DestroyCalls(q, space))
    {
      assert old@destroyed(Destroyable(q, space));
      assert old@destroyed(DestroyCalls(q, space)) == old(DestroyCalls(q, space));
    }
  }

  /** The calls hash_page_destory makes for every page of an SPT, by va: its
      destroy calls, then the free of the page itself. */
  ghost function KillPlan(spt: Spt, space: Pml4): (plan: map<int, seq<Call>>)
    requires spt.Valid() && space.Valid()
    requires forall k :: k in spt.pages ==> Destroyable(spt.pages[k], space)
    reads spt, spt.pages.Values, space, MappedFrames(space)
    reads set k, o | k in spt.pages && o in AuxSet(spt.pages[k].payload) :: o
    ensures plan.Keys == spt.pages.Keys
  {
    map k | k in spt.pages :: DestroyCalls(spt.pages[k], space) + [FreePage(spt.pages[k])]
  }

  /** The calls of a plan for the first n pages of the visiting order, in that order. */
  function Concat(order: seq<int>, plan: map<int, seq<Call>>, n: nat): (r: seq<Call>)
    requires n <= |order| && forall i :: 0 <= i < |order| ==> order[i] in plan
    ensures n == 0 ==> r == []
  {
    if n == 0 then [] else Concat(order, plan, n - 1) + plan[order[n - 1]]
  }

  lemma ConcatAssoc(a: seq<Call>, b: seq<Call>, c: seq<Call>)
    ensures a + (b + c) == (a + b) + c
  {
  }

  /** No key occurs twice in s. */
  predicate Distinct(s: seq<int>)
  {
    |s| == 0 || (s[0] !in s[1..] && Distinct(s[1..]))
  }

  /** Two positions of a sequence without duplicates hold different keys. */
  lemma {:induction false} DistinctAt(s: seq<int>, i: nat, j: nat)
    requires Distinct(s) && i < j < |s|
    ensures s[i] != s[j]
  {
    if i == 0 {
      assert s[1..][j - 1] == s[j];
    } else {
      assert s[1..][i - 1] == s[i] && s[1..][j - 1] == s[j];
      DistinctAt(s[1..], i - 1, j - 1);
    }
  }


  /** The pages of an SPT that are file-backed. */
  ghost function FileBackedKeys(spt: Spt): set<int>
    reads spt, spt.pages.Values
  {
    set k | k in spt.pages && spt.pages[k].payload.FileBacked?
  }

  /** The order in which a hash table iterator visits an SPT: every key once. */
  ghost predicate IsVisitOrder(order: seq<int>, spt: Spt)
    reads spt
  {
    && Distinct(order)
    && (forall i :: 0 <= i < |order| ==> order[i] in spt.pages)
    && (forall k :: k in spt.pages ==> k in order)
  }

  /** The kill after visiting order[..i]: the visited keys are recorded, every
      page still to visit is destroyable and would make the calls of the plan,
      and the page table has lost exactly the file-backed pages visited. */
  ghost predicate KilledUpTo(spt: Spt, space: Pml4, base: map<int, Pte>, order: seq<int>, i: nat,
                             plan: map<int, seq<Call>>, fileKeys: set<int>, visited: set<int>)
    reads *
  {
    && space.Valid() && i <= |order|
    && (forall j :: 0 <= j < |order| ==> order[j] in spt.pages)
    && (forall j :: 0 <= j < i ==> order[j] in visited)
    && (forall j :: i <= j < |order| ==>
          && order[j] !in visited && order[j] in plan
          && (order[j] in fileKeys <==> spt.pages[order[j]].payload.FileBacked?)
          && Destroyable(spt.pages[order[j]], space)
          && DestroyCalls(spt.pages[order[j]], space) + [FreePage(spt.pages[order[j]])] == plan[order[j]])
    && (forall va :: va in space.entries <==> va in base && !(va in fileKeys && va in visited))
    && (forall va :: va in space.entries ==> space.entries[va] == base[va])
  }

  /** One step of the kill: destroy the page at order[i]. */
  method KillStep(spt: Spt, space: Pml4, env: Env, order: seq<int>, i: nat,
                  ghost base: map<int, Pte>, ghost plan: map<int, seq<Call>>,
                  ghost fileKeys: set<int>, ghost visited: set<int>)
    requires spt.Valid() && Distinct(order) && i < |order|
    requires KilledUpTo(spt, space, base, order, i, plan, fileKeys, visited)
    modifies space, env
    ensures KilledUpTo(spt, space, base, order, i + 1, plan, fileKeys, visited + {order[i]})
    ensures env.calls == old(env.calls) + plan[order[i]]
    ensures env.files == old(env.files) && env.pos == old(env.pos)
    ensures env.nextHandle == old(env.nextHandle) && env.freeFrames == old(env.freeFrames)
  {
    var k := order[i];
    var page := spt.pages[k];
    HashPageDestroy(page, space, env);
    forall j | i + 1 <= j < |order|
      ensures order[j] != k && spt.pages[order[j]].va != page.va
    {
      DistinctAt(order, i, j);
    }
  }

  /** After the last page the table has lost exactly the file-backed pages. */
  lemma KilledAll(spt: Spt, space: Pml4, base: map<int, Pte>, order: seq<int>,
                  plan: map<int, seq<Call>>, fileKeys: set<int>, visited: set<int>)
    requires KilledUpTo(spt, space, base, order, |order|, plan, fileKeys, visited)
    requires forall k :: k in fileKeys ==> k in order
    ensures space.entries == base - fileKeys
  {
    forall k | k in fileKeys
      ensures k in visited
    {
      var j :| 0 <= j < |order| && order[j] == k;
    }
    assert forall va :: va in space.entries <==> va in (base - fileKeys);
    assert forall va :: va in space.entries ==> space.entries[va] == (base - fileKeys)[va];
  }

  /** The destroying walk of hash_clear with hash_page_destory as destructor:
      every page of the table, in the parameter order, is destroyed once. */
  method HashClear(spt: Spt, space: Pml4, env: Env, order: seq<int>,
                   ghost plan: map<int, seq<Call>>, ghost fileKeys: set<int>) returns (ghost visited: set<int>)
    requires spt.Valid() && Distinct(order)
    requires KilledUpTo(spt, space, space.entries, order, 0, plan, fileKeys, {})
    modifies space, env
    ensures KilledUpTo(spt, space, old(space.entries), order, |order|, plan, fileKeys, visited)
    ensures env.calls == old(env.calls) + Concat(order, plan, |order|)
    ensures env.files == old(env.files) && env.pos == old(env.pos)
    ensures env.nextHandle == old(env.nextHandle) && env.freeFrames == old(env.freeFrames)
  {
    ghost var base := space.entries;
    visited := {};
    for i := 0 to |order|
      invariant KilledUpTo(spt, space, base, order, i, plan, fileKeys, visited)
      invariant env.calls == old(env.calls) + Concat(order, plan, i)
      invariant env.files == old(env.files) && env.pos == old(env.pos)
      invariant env.nextHandle == old(env.nextHandle) && env.freeFrames == old(env.freeFrames)
    {
      KillStep(spt, space, env, order, i, base, plan, fileKeys, visited);
      ConcatAssoc(old(env.calls), Concat(order, plan, i), plan[order[i]]);
      visited := visited + {order[i]};
    }
  }

  /** supplemental_page_table_kill: hash_clear destroys every page once, in the
      hash table's visiting order (the parameter order), and empties the table. */
  method SptKill(spt: Spt, space: Pml4, env: Env, order: seq<int>)
    requires spt.Valid() && space.Valid() && IsVisitOrder(order, spt)
    requires forall k :: k in spt.pages ==> Destroyable(spt.pages[k], space)
    modifies spt, space, env
    ensures spt.Valid() && spt.pages == map[] && space.Valid()
    ensures space.entries == old(space.entries) - old(FileBackedKeys(spt))
    ensures env.calls == old(env.calls) + Concat(order, old(KillPlan(spt, space)), |order|)
    ensures env.files == old(env.files) && env.pos == old(env.pos)
    ensures env.nextHandle == old(env.nextHandle) && env.freeFrames == old(env.freeFrames)
  {
    ghost var plan := KillPlan(spt, space);
    ghost var fileKeys := FileBackedKeys(spt);
    ghost var base := space.entries;
    ghost var visited := HashClear(spt, space, env, order, plan, fileKeys);
    KilledAll(spt, space, base, order, plan, fileKeys, visited);
    spt.pages := map[];
  }

  /** What the fork copy dereferences in a parent page: the container of a
      pending page (memcpy'd), and for an anonymous page its frame (memcpy'd)
      and a user va (the child's claim asserts it). */
  ghost predicate CopyReady(p: Page)
    reads p, if p.frame != null then {p.frame} else {}
  {
    match p.payload
    case Uninit(_, _, aux, _) => aux != null
    case Anon => p.frame != null && p.frame.kva != null && p.frame.kva.Length == PGSIZE && IsUserVaddr(p.va)
    case FileBacked(_, _, _) => true
  }

  /** The number of anonymous pages among keys[i..]: the frames the copy
      still claims. */
  ghost function AnonFrom(keys: seq<int>, src: Spt, i: nat): nat
    requires forall j :: 0 <= j < |keys| ==> keys[j] in src.pages
    reads src, src.pages.Values
    decreases |keys| - i
  {
    if i >= |keys| then 0
    else (if src.pages[keys[i]].payload.Anon? then 1 else 0) + AnonFrom(keys, src, i + 1)
  }

  /** The child page the fork copy makes of a parent page, at the same va with
      the same writable bit: a pending parent page becomes a pending VM_ANON
      page with the same callback and a fresh copy of the container (whatever
      its own target was); an anonymous page becomes an anonymous page with a
      new frame holding the same bytes; a file-backed page becomes a pending
      VM_FILE page with no callback and a new container naming the same file
      handle, offset and read count. */
  ghost predicate CopyOf(sp: Page, dp: Page)
    reads sp, dp, AuxSet(sp.payload), AuxSet(dp.payload)
    reads if sp.frame != null then {sp.frame} else {}
    reads if dp.frame != null then {dp.frame} else {}
    reads if sp.frame != null && sp.frame.kva != null then {sp.frame.kva} else {}
    reads if dp.frame != null && dp.frame.kva != null then {dp.frame.kva} else {}
  {
    && dp.va == sp.va && dp.writable == sp.writable && dp.mappedPageCount == 0
    && match sp.payload
       case Uninit(init, _, aux, _) =>
         && dp.frame == null && aux != null && dp.payload.Uninit?
         && dp.payload == Uninit(init, VmAnon, dp.payload.aux, AnonInit)
         && dp.payload.aux != null && dp.payload.aux != aux && Snap(dp.payload.aux) == Snap(aux)
       case Anon =>
         && dp.payload == Anon
         && dp.frame != null && dp.frame.page == dp && dp.frame.kva != null
         && sp.frame != null && sp.frame.kva != null && dp.frame.kva != sp.frame.kva
         && dp.frame.kva[..] == sp.frame.kva[..]
       case FileBacked(f, off, rb) =>
         && dp.frame == null && dp.payload.Uninit?
         && dp.payload == Uninit(NoInit, VmFile, dp.payload.aux, FileInit)
         && dp.payload.aux != null && Snap(dp.payload.aux) == AuxSnap(f, off, rb, 0)
  }

  /** The child's page table maps the copy of an anonymous parent page, writable
      as the parent page is and clean. */
  ghost predicate MapsCopy(sp: Page, dp: Page, space: Pml4)
    reads sp, dp, space, if dp.frame != null then {dp.frame} else {}
  {
    sp.payload.Anon? ==>
      dp.frame != null && dp.frame.kva != null
      && sp.va in space.entries && space.entries[sp.va] == Pte(dp.frame.kva, sp.writable, false)
  }

  /** memcpy of one frame into another. */
  method Memcpy(to: array<byte>, from: array<byte>)
    requires to != from && to.Length == from.Length
    modifies to
    ensures to[..] == from[..]
  {
    forall j | 0 <= j < to.Length {
      to[j] := from[j];
    }
  }

  /** vm_alloc_page and vm_claim_page of the child's copy of an anonymous
      parent page: on success the child page is anonymous, linked to a new
      frame and mapped in the child's page table. */
  method RegisterAnon(dst: Spt, parent: Page, dstSpace: Pml4, env: Env) returns (ok: bool)
    requires dst.Valid() && dstSpace.Valid() && env.Valid()
    requires parent.va >= 0 && parent.va % PGSIZE == 0 && parent.payload.Anon? && CopyReady(parent)
    requires env.freeFrames > 0
    modifies dst, dstSpace, env
    ensures dst.Valid() && dstSpace.Valid() && env.Valid()
    ensures var k := parent.va;
            && (forall v :: v in old(dst.pages) ==> v in dst.pages && dst.pages[v] == old(dst.pages[v]))
            && (forall v :: v in dst.pages && v !in old(dst.pages) ==> v == k && fresh(dst.pages[v]))
            && (forall v :: v != k ==> (v in dstSpace.entries <==> v in old(dstSpace.entries)))
            && (forall v :: v != k && v in old(dstSpace.entries) ==> dstSpace.entries[v] == old(dstSpace.entries[v]))
    ensures env.freeFrames >= old(env.freeFrames) - 1
    ensures env.calls == old(env.calls) && env.files == old(env.files)
    ensures env.pos == old(env.pos) && env.nextHandle == old(env.nextHandle)
    ensures forall sp: Page, dp: Page {:trigger CopyOf(sp, dp)} ::
              old(allocated(sp)) && old(allocated(dp)) && old(CopyOf(sp, dp)) ==> CopyOf(sp, dp)
    ensures forall sp: Page, dp: Page {:trigger MapsCopy(sp, dp, dstSpace)} ::
              old(allocated(sp)) && old(allocated(dp)) && sp.va != parent.va && old(MapsCopy(sp, dp, dstSpace)) ==>
                MapsCopy(sp, dp, dstSpace)
    ensures ok ==> var k := parent.va;
              && k in dst.pages && k !in old(dst.pages)
              && var child := dst.pages[k];
              && child.va == k && child.writable == parent.writable && child.mappedPageCount == 0
              && child.payload == Anon && child.frame != null && fresh(child.frame)
              && child.frame.page == child && child.frame.kva != null && fresh(child.frame.kva)
              && child.frame.kva.Length == PGSIZE
              && k in dstSpace.entries && dstSpace.entries[k] == Pte(child.frame.kva, parent.writable, false)
  {
    var upage := parent.va;
    var registered := AllocPageWithInitializer(dst, VmAnon, upage, parent.writable, NoInit, null);
    if !registered {
      return false;
    }
    // the page is pending, so swap_in is uninit_initialize and stubOk is unused
    ok := ClaimPage(dst, dstSpace, env, upage, true);
  }

  /** The fork copy of an anonymous page: register it pending in the child,
      claim it, and copy the parent frame's bytes into the new frame. */
  method CopyAnonPage(dst: Spt, parent: Page, dstSpace: Pml4, env: Env) returns (ok: bool)
    requires dst.Valid() && dstSpace.Valid() && env.Valid()
    requires parent.va >= 0 && parent.va % PGSIZE == 0 && parent.payload.Anon? && CopyReady(parent)
    requires env.freeFrames > 0
    modifies dst, dstSpace, env
    ensures dst.Valid() && dstSpace.Valid() && env.Valid()
    ensures var k := parent.va;
            && (forall v :: v in old(dst.pages) ==> v in dst.pages && dst.pages[v] == old(dst.pages[v]))
            && (forall v :: v in dst.pages && v !in old(dst.pages) ==> v == k && fresh(dst.pages[v]))
            && (forall v :: v != k ==> (v in dstSpace.entries <==> v in old(dstSpace.entries)))
            && (forall v :: v != k && v in old(dstSpace.entries) ==> dstSpace.entries[v] == old(dstSpace.entries[v]))
    ensures env.freeFrames >= old(env.freeFrames) - 1
    ensures env.calls == old(env.calls) && env.files == old(env.files)
    ensures env.pos == old(env.pos) && env.nextHandle == old(env.nextHandle)
    ensures forall sp: Page, dp: Page {:trigger CopyOf(sp, dp)} ::
              old(allocated(sp)) && old(allocated(dp)) && old(CopyOf(sp, dp)) ==> CopyOf(sp, dp)
    ensures forall sp: Page, dp: Page {:trigger MapsCopy(sp, dp, dstSpace)} ::
              old(allocated(sp)) && old(allocated(dp)) && sp.va != parent.va && old(MapsCopy(sp, dp, dstSpace)) ==>
                MapsCopy(sp, dp, dstSpace)
    ensures ok ==> var k := parent.va;
              && k in dst.pages && k !in old(dst.pages)
              && CopyOf(parent, dst.pages[k]) && MapsCopy(parent, dst.pages[k], dstSpace)
  {
    ok := RegisterAnon(dst, parent, dstSpace, env);
    if ok {
      var child := dst.pages[parent.va];
      Memcpy(child.frame.kva, parent.frame.kva);
    }
  }

  /** One step of the fork copy: re-register the parent page in the child's
      SPT and, for an anonymous page, claim it and copy the frame. */
  method CopyPage(dst: Spt, parent: Page, dstSpace: Pml4, env: Env) returns (ok: bool)
    requires dst.Valid() && dstSpace.Valid() && env.Valid()
    requires parent.va >= 0 && parent.va % PGSIZE == 0 && CopyReady(parent)
    requires parent.payload.Anon? ==> env.freeFrames > 0
    modifies dst, dstSpace, env
    ensures dst.Valid() && dstSpace.Valid() && env.Valid()
    ensures var k := parent.va;
            && (forall v :: v in old(dst.pages) ==> v in dst.pages && dst.pages[v] == old(dst.pages[v]))
            && (forall v :: v in dst.pages && v !in old(dst.pages) ==> v == k && fresh(dst.pages[v]))
            && (forall v :: v != k ==> (v in dstSpace.entries <==> v in old(dstSpace.entries)))
            && (forall v :: v != k && v in old(dstSpace.entries) ==> dstSpace.entries[v] == old(dstSpace.entries[v]))
    ensures env.freeFrames >= old(env.freeFrames) - (if parent.payload.Anon? then 1 else 0)
    ensures env.calls == old(env.calls) && env.files == old(env.files)
    ensures env.pos == old(env.pos) && env.nextHandle == old(env.nextHandle)
    ensures !parent.payload.Anon? ==> dstSpace.entries == old(dstSpace.entries)
    ensures forall sp: Page, dp: Page {:trigger CopyOf(sp, dp)} ::
              old(allocated(sp)) && old(allocated(dp)) && old(CopyOf(sp, dp)) ==> CopyOf(sp, dp)
    ensures forall sp: Page, dp: Page {:trigger MapsCopy(sp, dp, dstSpace)} ::
              old(allocated(sp)) && old(allocated(dp)) && sp.va != parent.va && old(MapsCopy(sp, dp, dstSpace)) ==>
                MapsCopy(sp, dp, dstSpace)
    ensures parent.payload.Uninit? ==> ok
    ensures ok ==> var k := parent.va;
              && k in dst.pages
              && (!parent.payload.Uninit? ==> k !in old(dst.pages))
              && (k !in old(dst.pages) ==> CopyOf(parent, dst.pages[k]) && MapsCopy(parent, dst.pages[k], dstSpace))
  {
    var upage := parent.va;
    var writable := parent.writable;
    match parent.payload {
      case Uninit(init, _, aux, _) =>
        // memcpy of the parent's container
        var container := new Container(aux.file, aux.offset, aux.readBytes, aux.zeroBytes);
        var _ := AllocPageWithInitializer(dst, VmAnon, upage, writable, init, container);
        ok := true;
      case Anon =>
        ok := CopyAnonPage(dst, parent, dstSpace, env);
      case FileBacked(f, off, rb) =>
        var container := new Container(f, off, rb, 0);
        ok := AllocPageWithInitializer(dst, VmFile, upage, writable, NoInit, container);
    }
  }

  /** The child's page table differs from e0 only at the vas of the parent's
      anonymous pages, the only pages the copy claims. */
  ghost predicate KeptAwayFromAnon(e: map<int, Pte>, e0: map<int, Pte>, src: Spt)
    reads src, src.pages.Values
  {
    forall v :: !(v in src.pages && src.pages[v].payload.Anon?) ==>
      && (v in e <==> v in e0)
      && (v in e0 ==> e[v] == e0[v])
  }

  /** One copy step keeps KeptAwayFromAnon: it changes only the entry at its
      own key, and that only for an anonymous parent page. */
  lemma KeptStep(e2: map<int, Pte>, e1: map<int, Pte>, e0: map<int, Pte>, src: Spt, k: int)
    requires KeptAwayFromAnon(e1, e0, src)
    requires forall v :: v != k ==> (v in e2 <==> v in e1)
    requires forall v :: v != k && v in e1 ==> e2[v] == e1[v]
    requires !(k in src.pages && src.pages[k].payload.Anon?) ==> e2 == e1
    ensures KeptAwayFromAnon(e2, e0, src)
  {
  }

  /** The fork copy after visiting order[..i]: the child's pages it had
      before are kept, every new child page copies the parent page at its
      key, and every visited key is in the child. */
  ghost predicate CopiedUpTo(dst: Spt, src: Spt, dstSpace: Pml4, base: map<int, Page>, order: seq<int>, i: nat)
    reads *
  {
    && i <= |order| && (forall j :: 0 <= j < |order| ==> order[j] in src.pages)
    && (forall k :: k in base ==> k in dst.pages && dst.pages[k] == base[k])
    && (forall k :: k in dst.pages && k !in base ==>
          k in src.pages && CopyOf(src.pages[k], dst.pages[k]) && MapsCopy(src.pages[k], dst.pages[k], dstSpace))
    && (forall j :: i <= j < |order| ==> (order[j] in dst.pages <==> order[j] in base))
    && (forall j :: 0 <= j < i ==>
          order[j] in dst.pages && (!src.pages[order[j]].payload.Uninit? ==> order[j] !in base))
  }

  method CopyStep(dst: Spt, src: Spt, dstSpace: Pml4, env: Env, order: seq<int>, i: nat,
                  ghost base: map<int, Page>, ghost e0: map<int, Pte>) returns (ok: bool)
    requires dst != src && dst.Valid() && src.Valid() && dstSpace.Valid() && env.Valid()
    requires Distinct(order) && i < |order|
    requires CopiedUpTo(dst, src, dstSpace, base, order, i)
    requires CopyReady(src.pages[order[i]])
    requires env.freeFrames >= AnonFrom(order, src, i)
    requires KeptAwayFromAnon(dstSpace.entries, e0, src)
    modifies dst, dstSpace, env
    ensures dst.Valid() && dstSpace.Valid() && env.Valid()
    ensures env.freeFrames >= AnonFrom(order, src, i + 1)
    ensures env.calls == old(env.calls) && env.files == old(env.files)
    ensures env.pos == old(env.pos) && env.nextHandle == old(env.nextHandle)
    ensures forall v :: v != order[i] ==> (v in dstSpace.entries <==> v in old(dstSpace.entries))
    ensures forall v :: v != order[i] && v in old(dstSpace.entries) ==> dstSpace.entries[v] == old(dstSpace.entries[v])
    ensures !src.pages[order[i]].payload.Anon? ==> dstSpace.entries == old(dstSpace.entries)
    ensures KeptAwayFromAnon(dstSpace.entries, e0, src)
    ensures forall k :: k in old(dst.pages) ==> k in dst.pages && dst.pages[k] == old(dst.pages[k])
    ensures forall k :: k in dst.pages && k !in old(dst.pages) ==> k == order[i] && fresh(dst.pages[k])
    ensures ok ==> CopiedUpTo(dst, src, dstSpace, base, order, i + 1)
  {
    var k := order[i];
    var parent := src.pages[k];
    ghost var before := dstSpace.entries;
    ok := CopyPage(dst, parent, dstSpace, env);
    KeptStep(dstSpace.entries, before, e0, src, k);
    forall j | i < j < |order|
      ensures order[j] != order[i]
    {
      DistinctAt(order, i, j);
    }
  }

  /** After the last page every parent page has its copy in the child. */
  lemma CopiedAll(dst: Spt, src: Spt, dstSpace: Pml4, base: map<int, Page>, order: seq<int>)
    requires CopiedUpTo(dst, src, dstSpace, base, order, |order|)
    requires forall k :: k in src.pages ==> k in order
    ensures forall k :: k in src.pages ==>
              && k in dst.pages
              && (!src.pages[k].payload.Uninit? ==> k !in base)
              && (k !in base ==> CopyOf(src.pages[k], dst.pages[k]))
              && (k !in base ==> MapsCopy(src.pages[k], dst.pages[k], dstSpace))
  {
    forall k | k in src.pages
      ensures k in dst.pages && (!src.pages[k].payload.Uninit? ==> k !in base)
    {
      var j :| 0 <= j < |order| && order[j] == k;
    }
  }

  /** The loop of supplemental_page_table_copy: copy the parent pages in the
      visiting order, stopping at the first step that fails. */
  method CopyLoop(dst: Spt, src: Spt, dstSpace: Pml4, env: Env, order: seq<int>,
                  ghost base: map<int, Page>, ghost e0: map<int, Pte>) returns (ok: bool)
    requires dst != src && dst.Valid() && src.Valid() && dstSpace.Valid() && env.Valid()
    requires Distinct(order) && dst.pages == base
    requires CopiedUpTo(dst, src, dstSpace, base, order, 0)
    requires forall k :: k in src.pages ==> CopyReady(src.pages[k])
    requires env.freeFrames >= AnonFrom(order, src, 0)
    requires KeptAwayFromAnon(dstSpace.entries, e0, src)
    modifies dst, dstSpace, env
    ensures dst.Valid() && dstSpace.Valid() && env.Valid()
    ensures forall k :: k in base ==> k in dst.pages && dst.pages[k] == base[k]
    ensures forall k :: k in dst.pages && k !in base ==> k in src.pages && fresh(dst.pages[k])
    ensures env.calls == old(env.calls) && env.files == old(env.files)
    ensures env.pos == old(env.pos) && env.nextHandle == old(env.nextHandle)
    ensures KeptAwayFromAnon(dstSpace.entries, e0, src)
    ensures ok ==> CopiedUpTo(dst, src, dstSpace, base, order, |order|)
  {
    for i := 0 to |order|
      invariant dst.Valid() && dstSpace.Valid() && env.Valid()
      invariant env.freeFrames >= AnonFrom(order, src, i)
      invariant CopiedUpTo(dst, src, dstSpace, base, order, i)
      invariant forall k :: k in dst.pages && k !in base ==> fresh(dst.pages[k])
      invariant env.calls == old(env.calls) && env.files == old(env.files)
      invariant env.pos == old(env.pos) && env.nextHandle == old(env.nextHandle)
      invariant KeptAwayFromAnon(dstSpace.entries, e0, src)
    {
      ghost var k := order[i];
      assert k in src.pages;
      ok := CopyStep(dst, src, dstSpace, env, order, i, base, e0);
      if !ok {
        return;
      }
    }
    ok := true;
  }

  /** supplemental_page_table_copy into the SPT and page table of the current
      (child) process, visiting the parent's pages in the hash table's order.
      A pending page is re-registered as VM_ANON and a failure to register it
      is ignored; an anonymous or file-backed page that cannot be registered,
      or an anonymous page that cannot be claimed, ends the copy with false,
      keeping the pages copied so far. */
  method SptCopy(dst: Spt, src: Spt, dstSpace: Pml4, env: Env, order: seq<int>) returns (ok: bool)
    requires dst != src && dst.Valid() && src.Valid() && dstSpace.Valid() && env.Valid()
    requires IsVisitOrder(order, src)
    requires forall k :: k in src.pages ==> CopyReady(src.pages[k])
    requires env.freeFrames >= AnonFrom(order, src, 0)
    modifies dst, dstSpace, env
    ensures dst.Valid() && dstSpace.Valid() && env.Valid()
    ensures forall k :: k in old(dst.pages) ==> k in dst.pages && dst.pages[k] == old(dst.pages[k])
    ensures forall k :: k in dst.pages && k !in old(dst.pages) ==> k in src.pages && fresh(dst.pages[k])
    ensures env.calls == old(env.calls) && env.files == old(env.files)
    ensures env.pos == old(env.pos) && env.nextHandle == old(env.nextHandle)
    ensures KeptAwayFromAnon(dstSpace.entries, old(dstSpace.entries), src)
    ensures ok ==> forall k :: k in src.pages ==>
              && k in dst.pages
              && (!src.pages[k].payload.Uninit? ==> k !in old(dst.pages))
              && (k !in old(dst.pages) ==> CopyOf(src.pages[k], dst.pages[k]))
              && (k !in old(dst.pages) ==> MapsCopy(src.pages[k], dst.pages[k], dstSpace))
  {
    ghost var base := dst.pages;
    ghost var e0 := dstSpace.entries;
    ok := CopyLoop(dst, src, dstSpace, env, order, base, e0);
    if ok {
      CopiedAll(dst, src, dstSpace, base, order);
    }
  }

}
