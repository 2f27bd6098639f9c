/** The pending ("uninit") page variant of vm/uninit.c: every page is born
    pending, and on its first claim uninit_initialize transmutes it into an
    anonymous or file-backed page and runs its init callback. */
module Uninit {
  import opened VmTypes
  import LazyLoad
  import FilePage

  /** uninit_new: overwrite the whole page so that it is pending with the given
      va, callback, type, container and initializer, and has no frame. Every
      other member of the compound literal is zero. */
  method UninitNew(page: Page, va: int, init: Init, target: VmType, aux: Container?,
                   initializer: PageInitializer)
    modifies page
    ensures page.va == va && page.frame == null
    ensures page.payload == Uninit(init, target, aux, initializer)
    ensures !page.writable && page.mappedPageCount == 0
  {
    page.va := va;
    page.frame := null;
    page.payload := Uninit(init, target, aux, initializer);
    page.writable := false;
    page.mappedPageCount := 0;
  }

  /** anon_initializer (vm/anon.c is not part of this model): the page takes the
      anonymous operations and the initializer reports success. */
  method AnonInitializer(page: Page) returns (ok: bool)
    modifies page
    ensures ok && page.payload == Anon
    ensures page.va == old(page.va) && page.writable == old(page.writable)
    ensures page.frame == old(page.frame) && page.mappedPageCount == old(page.mappedPageCount)
  {
    page.payload := Anon;
    ok := true;
  }

  /** The variant a pending payload becomes: anonymous, or file-backed with the
      file, offset and read count of its container. */
  function Transmuted(u: Payload, a: AuxSnap): (r: Payload)
    requires u.Uninit?
    ensures u.initializer == InitializerFor(u.target) ==> PayloadType(r) == u.target
    ensures r.FileBacked? <==> u.initializer == FileInit
  {
    match u.initializer
    case AnonInit => Anon
    case FileInit => FileBacked(a.file, a.offset, a.readBytes)
  }

  /** What uninit_initialize dereferences: the container, when the file
      initializer or the lazy-load callback reads it, and the file region the
      callback loads, which must fit into one frame. */
  ghost predicate ClaimReady(u: Payload, env: Env)
    requires u.Uninit?
    reads AuxSet(u), env
  {
    && (u.initializer == FileInit ==> u.aux != null)
    && (u.init == LazyLoadInit ==>
          && u.aux != null && u.aux.file in env.files
          && u.aux.offset >= 0 && 0 <= u.aux.readBytes <= PGSIZE)
  }

  /** uninit_initialize: fetch the callback and container first, run the page
      initializer (which rewrites the payload), then run the callback, if any,
      on the container fetched before; the callback does not run when the
      page initializer fails. */
  method UninitInitialize(page: Page, kva: array<byte>, env: Env) returns (ok: bool)
    requires env.Valid()
    requires page.payload.Uninit? && ClaimReady(page.payload, env)
    requires page.frame != null && page.frame.kva == kva && kva.Length == PGSIZE
    modifies page, kva, env
    ensures env.Valid()
    ensures page.va == old(page.va) && page.writable == old(page.writable)
    ensures page.frame == old(page.frame) && page.mappedPageCount == old(page.mappedPageCount)
    ensures var u := old(page.payload); var a := old(Snap(page.payload.aux));
            && page.payload == Transmuted(u, a)
            && (u.init == NoInit ==>
                  && ok && kva[..] == old(kva[..])
                  && env.files == old(env.files) && env.pos == old(env.pos)
                  && env.calls == old(env.calls) && env.freeFrames == old(env.freeFrames))
            && (u.init == LazyLoadInit ==>
                  && LazyLoad.LoadOutcome(old(kva[..]), kva[..], old(env.files[a.file]),
                                          a.offset, a.readBytes, ok)
                  && env.files == old(env.files)
                  && env.pos == old(env.pos)[a.file := a.offset + |FileRead(old(env.files[a.file]), a.offset, a.readBytes)|]
                  && env.calls == old(env.calls) + (if ok then [] else [FreeUserPage(kva)])
                  && env.freeFrames == old(env.freeFrames) + (if ok then 0 else 1))
    ensures env.nextHandle == old(env.nextHandle)
  {
    var u := page.payload;
    // fetch first: the page initializer overwrites the union
    var init := u.init;
    var aux := u.aux;
    var initOk: bool;
    match u.initializer {
      case AnonInit =>
        initOk := AnonInitializer(page);
      case FileInit =>
        initOk := FilePage.FileBackedInitializer(page);
    }
    if initOk && init == LazyLoadInit {
      ok := LazyLoad.LazyLoadSegment(page, aux, env);
    } else {
      ok := initOk;
    }
  }

  /** The calls uninit_destroy makes for a pending payload: close the
      container's file only for a VM_FILE target, then free the container
      (free of a null container does nothing). */
  ghost function UninitDestroyCalls(u: Payload): (r: seq<Call>)
    requires u.Uninit? && (u.target == VmFile ==> u.aux != null)
    reads AuxSet(u)
    ensures |r| == (if u.target == VmFile then 1 else 0) + (if u.aux != null then 1 else 0)
    ensures u.target == VmFile ==> r[0] == Close(u.aux.file)
    ensures u.aux != null ==> r[|r| - 1] == FreeAux(u.aux)
  {
    (if u.target == VmFile then [Close(u.aux.file)] else [])
      + (if u.aux != null then [FreeAux(u.aux)] else [])
  }

  /** uninit_destroy: nothing for a null page; otherwise close the container's
      file for a VM_FILE target and free the container exactly once. */
  method UninitDestroy(page: Page?, env: Env)
    requires page != null ==> page.payload.Uninit?
    requires page != null && page.payload.target == VmFile ==> page.payload.aux != null
    modifies env
    ensures page == null ==> env.calls == old(env.calls)
    ensures page != null ==> env.calls == old(env.calls) + old(UninitDestroyCalls(page.payload))
    ensures env.files == old(env.files) && env.pos == old(env.pos)
    ensures env.nextHandle == old(env.nextHandle) && env.freeFrames == old(env.freeFrames)
  {
    if page == null {
      return;
    }
    var u := page.payload;
    var container := u.aux;
    match u.target {
      case VmAnon =>
      case VmFile =>
        env.calls := env.calls + [Close(container.file)];
    }
    if container != null {
      env.calls := env.calls + [FreeAux(container)];
    }
  }
}
