/** The system calls of userprog/syscall.c that reach the VM layer and the
    descriptor table: get_file, seek, tell and the guard chain of mmap in
    front of do_mmap. */
module Syscall {
  import opened VmTypes
  import opened Vm
  import opened Mmap
  import opened FdTable

  /** Every file the descriptor table holds is a handle the file layer knows. */
  ghost predicate OpenFiles(table: FileTable, env: Env)
    reads table, table.slots, env
  {
    forall i :: 0 <= i < table.slots.Length && table.slots[i].Some? ==> table.slots[i].value in env.files
  }

  // ---- get_file, seek, tell ----

  /** get_file: NULL for fd < 2 or fd > 128, otherwise the table slot. It
      agrees with process_get_file except at fd 128, the one slot
      process_add_file never fills, which it reads all the same. */
  function GetFile(table: FileTable, fd: int): (r: Option<FileRef>)
    requires table.Valid()
    reads table, table.slots
    ensures fd != FD_END ==> r == table.GetFile(fd)
    ensures fd == FD_END ==> r == table.slots[FD_END] && table.GetFile(fd) == None
  {
    if fd < 2 || fd > 128 then None else table.slots[fd]
  }

  /** tell: nothing defined is returned for an fd outside 2..128 (None here);
      otherwise the cursor of the file process_get_file finds, or NULL (0)
      when there is none. */
  function Tell(table: FileTable, env: Env, fd: int): (r: Option<int>)
    requires table.Valid() && env.Valid() && OpenFiles(table, env)
    reads table, table.slots, env
    ensures r.None? <==> fd < 2 || fd > 128
    ensures r.Some? && table.GetFile(fd).Some? ==> r.value == env.pos[table.GetFile(fd).value]
    ensures r.Some? && table.GetFile(fd).None? ==> r.value == 0
  {
    if fd < 2 || fd > 128 then None
    else
      var tmp := table.GetFile(fd);
      if tmp.Some? then Some(env.pos[tmp.value]) else Some(0)
  }

  /** seek: for an fd of 2..128 whose slot process_get_file finds filled,
      move that file's cursor to position; otherwise do nothing. tell then
      reads position back. */
  method Seek(table: FileTable, env: Env, fd: int, position: nat)
    requires table.Valid() && env.Valid() && OpenFiles(table, env)
    modifies env
    ensures env.Valid() && OpenFiles(table, env)
    ensures env.files == old(env.files) && env.calls == old(env.calls)
    ensures env.nextHandle == old(env.nextHandle) && env.freeFrames == old(env.freeFrames)
    ensures table.GetFile(fd).Some? ==> env.pos == old(env.pos)[table.GetFile(fd).value := position]
    ensures table.GetFile(fd).Some? ==> Tell(table, env, fd) == Some(position)
    ensures table.GetFile(fd).None? ==> env.pos == old(env.pos)
  {
    if fd < 2 || fd > 128 {
      return;
    }
    var tmp := table.GetFile(fd);
    if tmp.Some? {
      env.pos := env.pos[tmp.value := position];
    }
  }

  // ---- mmap ----

  /** The guard chain of mmap as written, on the keys of the supplemental page
      table, the contents of the descriptor table and the file contents each
      handle refers to: true when mmap goes on to call do_mmap. Its first
      guard rejects only an addr below PGSIZE. */
  function MmapAdmitsAsWritten(keys: set<int>, slots: seq<Option<FileRef>>, files: map<FileRef, seq<byte>>,
                               addr: nat, length: nat, fd: Int32, offset: Int32): (admitted: bool)
    requires addr < U64 && length < U64
    requires forall i :: 0 <= i < |slots| && slots[i].Some? ==> slots[i].value in files
  {
    if addr == 0 || PgRoundDown(addr) == 0 then false
    else if IsKernelVaddr(addr) || IsKernelVaddr(AddU64(addr, length)) then false
    else if Wrap64(offset) != PgRoundDown(Wrap64(offset)) then false
    else if PgRoundDown(addr) in keys then false
    else if fd < 2 then false
    else if SlotOf(slots, fd, 128).None? then false
    else if |files[SlotOf(slots, fd, 128).value]| == 0 || ToInt32(length) <= 0 then false
    else true
  }

  /** The guard chain with its first guard as its comment describes it: addr
      must be non-NULL and on a page boundary. */
  function MmapAdmits(keys: set<int>, slots: seq<Option<FileRef>>, files: map<FileRef, seq<byte>>,
                      addr: nat, length: nat, fd: Int32, offset: Int32): (admitted: bool)
    requires addr < U64 && length < U64
    requires forall i :: 0 <= i < |slots| && slots[i].Some? ==> slots[i].value in files
  {
    if addr == 0 || PgRoundDown(addr) != addr then false
    else MmapAdmitsAsWritten(keys, slots, files, addr, length, fd, offset)
  }

  /** offset != pg_round_down(offset), with the off_t widened to 64 bits,
      tests offset % PGSIZE != 0, for negative offsets too. */
  lemma OffsetAligned(offset: Int32)
    ensures Wrap64(offset) == PgRoundDown(Wrap64(offset)) <==> offset % 4096 == 0
  {
    if offset >= 0 {
      WrapOf(0, offset);
    } else {
      WrapOf(-1, offset + 0x1_0000_0000_0000_0000);
      assert (offset + 0x1_0000_0000_0000_0000) % 4096 == offset % 4096;
    }
  }

  /** mmap reaches do_mmap exactly when: addr is a page-aligned user address
      from PGSIZE on; addr + length, computed in 64 bits, is a user address;
      the offset is page-aligned; the page at addr is free; fd is 2..128 with
      a file in its slot; that file is not empty; and length, read as an int,
      is positive. */
  lemma MmapAdmitsIff(keys: set<int>, slots: seq<Option<FileRef>>, files: map<FileRef, seq<byte>>,
                      addr: nat, length: nat, fd: Int32, offset: Int32)
    requires addr < U64 && length < U64
    requires forall i :: 0 <= i < |slots| && slots[i].Some? ==> slots[i].value in files
    ensures MmapAdmits(keys, slots, files, addr, length, fd, offset)
            <==> && PGSIZE <= addr < KERN_BASE && addr % 4096 == 0
                 && AddU64(addr, length) < KERN_BASE
                 && offset % 4096 == 0
                 && addr !in keys
                 && 2 <= fd <= 128 && fd < |slots| && slots[fd].Some?
                 && |files[slots[fd].value]| > 0
                 && ToInt32(length) > 0
  {
    OffsetAligned(offset);
  }

  /** The guards as written let an address that is not on a page boundary
      through to do_mmap, whose ASSERT (pg_ofs (addr) == 0) then fails: addr
      0x1001 with a one-byte file at fd 2. The corrected chain refuses it. */
  lemma MmapAdmitsUnaligned()
    ensures var slots := seq(129, i => if i == 2 then Some(7) else None);
            && MmapAdmitsAsWritten({}, slots, map[7 := [1]], 0x1001, 1, 2, 0)
            && 0x1001 % 4096 != 0
            && !MmapAdmits({}, slots, map[7 := [1]], 0x1001, 1, 2, 0)
  {
    var slots := seq(129, i => if i == 2 then Some(7) else None);
    assert SlotOf(slots, 2, 128) == Some(7);
    assert PgRoundDown(0x1001) == 0x1000;
    assert Wrap64(0) == 0;
    assert ToInt32(1) == 1;
    assert AddU64(0x1001, 1) == 0x1002;
  }

  /** mmap: refuse with NULL unless every guard passes, and otherwise return
      what do_mmap returns. */
  method MmapCall(spt: Spt, table: FileTable, env: Env, addr: nat, length: nat, writable: bool,
                  fd: Int32, offset: Int32) returns (r: Option<nat>, ghost reopened: FileRef, ghost n: nat)
    requires spt.Valid() && env.Valid() && table.Valid() && OpenFiles(table, env)
    requires addr < U64 && length < U64
    modifies spt, env
    ensures var admitted := old(MmapAdmits(spt.pages.Keys, table.slots[..], env.files, addr, length, fd, offset));
            && (!admitted ==> && r == None && spt.pages == old(spt.pages)
                              && env.files == old(env.files) && env.pos == old(env.pos))
            && (admitted ==>
                  && reopened !in old(env.files)
                  && env.files == old(env.files)[reopened := old(env.files)[GetFile(table, fd).value]]
                  && env.pos == old(env.pos)[reopened := 0]
                  && MappedRun(spt, old(spt.pages), Upages(addr, n), Offsets(offset, length, n),
                               writable, reopened, length, TotalPageCount(length))
                  && (r.Some? <==> length < PGSIZE && length <= |old(env.files)[GetFile(table, fd).value]|)
                  && (r.Some? ==> r.value == addr && n == 1))
    ensures env.Valid() && env.calls == old(env.calls) && env.freeFrames == old(env.freeFrames)
    ensures forall va :: va in spt.pages && va !in old(spt.pages) ==> fresh(spt.pages[va])
  {
    if !MmapAdmits(spt.pages.Keys, table.slots[..], env.files, addr, length, fd, offset) {
      return None, 0, 0;
    }
    MmapAdmitsIff(spt.pages.Keys, table.slots[..], env.files, addr, length, fd, offset);
    OffsetAligned(offset);
    var file := GetFile(table, fd).value;
    r, reopened, n := DoMmap(spt, env, addr, length, writable, file, offset);
  }
}
