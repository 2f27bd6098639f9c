/** The file-backed page variant of vm/file.c: its initializer, run when a
    pending VM_FILE page is first claimed, and its destroy operation. */
module FilePage {
  import opened VmTypes

  /** file_backed_initializer: the page takes the file operations and copies the
      file, offset and read count of its container; zero_bytes is not copied. */
  method FileBackedInitializer(page: Page) returns (ok: bool)
    requires page.payload.Uninit? && page.payload.aux != null
    modifies page
    ensures ok
    ensures var a := old(page.payload.aux);
            page.payload == FileBacked(old(a.file), old(a.offset), old(a.readBytes))
    ensures page.va == old(page.va) && page.writable == old(page.writable)
    ensures page.frame == old(page.frame) && page.mappedPageCount == old(page.mappedPageCount)
  {
    var container := page.payload.aux;
    page.payload := FileBacked(container.file, container.offset, container.readBytes);
    ok := true;
  }

  /** The calls file_backed_destroy makes: one write-back of read_bytes bytes of
      the mapped frame at the page's offset, and only if the page is dirty. */
  ghost function FileDestroyCalls(p: Payload, va: int, space: Pml4): seq<Call>
    requires p.FileBacked? && space.Valid()
    requires space.IsDirty(va) ==> 0 <= p.readBytes <= PGSIZE
    reads space, if space.IsDirty(va) then {space.entries[va].kva} else {}
  {
    if space.IsDirty(va) then [WriteAt(p.file, space.entries[va].kva[..p.readBytes], p.offset)]
    else []
  }

  /** file_backed_destroy: write a dirty page back to its file, clear the dirty
      bit, and always remove the hardware mapping of the page. */
  method FileBackedDestroy(page: Page, space: Pml4, env: Env)
    requires page.payload.FileBacked? && space.Valid()
    requires space.IsDirty(page.va) ==> 0 <= page.payload.readBytes <= PGSIZE
    modifies space, env
    ensures space.Valid()
    ensures space.entries == old(space.entries) - {page.va}
    ensures env.calls == old(env.calls) + old(FileDestroyCalls(page.payload, page.va, space))
    ensures env.files == old(env.files) && env.pos == old(env.pos)
    ensures env.nextHandle == old(env.nextHandle) && env.freeFrames == old(env.freeFrames)
  {
    var fp := page.payload;
    if space.IsDirty(page.va) {
      var pte := space.entries[page.va];
      env.calls := env.calls + [WriteAt(fp.file, pte.kva[..fp.readBytes], fp.offset)];
      space.entries := space.entries[page.va := pte.(dirty := false)];
    }
    space.entries := space.entries - {page.va};
  }
}
