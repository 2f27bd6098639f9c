/** The file-descriptor table of a process (userprog/process.c): a fixed
    array of file handles indexed by descriptor, where descriptors 0 and 1 are
    the console and 2..127 are the ones process_add_file hands out. */
module FdTable {
  import opened VmTypes

  /** The first descriptor past the ones process_add_file hands out. */
  const FD_END: nat := 128

  /** The lowest descriptor in from..127 whose slot is empty, or -1 when all
      of them are taken. */
  function LowestFree(slots: seq<Option<FileRef>>, from: nat): (fd: int)
    requires |slots| >= FD_END
    decreases FD_END - from
    ensures fd == -1 || (from <= fd < FD_END && slots[fd].None?)
  {
    if from >= FD_END then -1
    else if slots[from].None? then from
    else LowestFree(slots, from + 1)
  }

  /** LowestFree finds the lowest empty slot: every slot from `from` up to it
      is taken, and it gives -1 exactly when every slot from `from` to 127 is. */
  lemma {:induction false} LowestFreeIsLowest(slots: seq<Option<FileRef>>, from: nat)
    requires |slots| >= FD_END
    decreases FD_END - from
    ensures var fd := LowestFree(slots, from);
            && (fd != -1 ==> forall i :: from <= i < fd ==> slots[i].Some?)
            && (fd == -1 <==> forall i :: from <= i < FD_END ==> slots[i].Some?)
  {
    if from < FD_END && slots[from].Some? {
      LowestFreeIsLowest(slots, from + 1);
    }
  }

  /** The slot a lookup with descriptors 2..last reads: empty outside that
      range or past the table, the table slot inside it. process_get_file
      uses last = 127, get_file last = 128. */
  function SlotOf(slots: seq<Option<FileRef>>, fd: int, last: int): (r: Option<FileRef>)
    ensures r.Some? ==> 2 <= fd <= last && fd < |slots| && r == slots[fd]
    ensures 2 <= fd <= last && fd < |slots| ==> r == slots[fd]
  {
    if fd < 2 || fd > last || fd >= |slots| then None else slots[fd]
  }

  /** After a file is stored at the slot LowestFree chose, that descriptor
      reads back the file, and every other descriptor reads what it read before. */
  lemma AddThenGet(slots: seq<Option<FileRef>>, f: FileRef, g: int)
    requires |slots| >= FD_END && LowestFree(slots, 2) != -1
    ensures var fd := LowestFree(slots, 2);
            && SlotOf(slots[fd := Some(f)], fd, FD_END - 1) == Some(f)
            && (g != fd ==> SlotOf(slots[fd := Some(f)], g, FD_END - 1) == SlotOf(slots, g, FD_END - 1))
  {
    // LowestFree only returns descriptors of 2..127, within the table
    var fd := LowestFree(slots, 2);
    assert 2 <= fd < FD_END;
  }

  /** The fd_table of a thread together with cur_fd, the descriptor last
      handed out. The table is palloc'd in whole pages, so it has more than
      128 slots; descriptors 0 and 1 are never stored by the code here. */
  class FileTable {
    const slots: array<Option<FileRef>>
    var curFd: int

    ghost predicate Valid()
      reads this
    {
      slots.Length > FD_END
    }

    /** A table with every slot empty (the page comes zeroed). */
    constructor (size: nat)
      requires size > FD_END
      ensures Valid() && fresh(slots) && slots.Length == size
      ensures forall i :: 0 <= i < size ==> slots[i] == None
      ensures curFd == 2
    {
      slots := new Option<FileRef>[size](_ => None);
      curFd := 2;
    }

    /** process_get_file: NULL outside 2..127, otherwise the table slot. */
    function GetFile(fd: int): (r: Option<FileRef>)
      requires Valid()
      reads this, slots
      ensures r == SlotOf(slots[..], fd, FD_END - 1)
    {
      if fd < 2 || fd > 127 then None else slots[fd]
    }

    /** process_add_file: store f in the lowest empty slot of 2..127 and
        return its descriptor; -1 and the table unchanged when all are taken. */
    method AddFile(f: FileRef) returns (fd: int)
      requires Valid()
      modifies this, slots
      ensures Valid()
      ensures fd == LowestFree(old(slots[..]), 2)
      ensures fd == -1 ==> slots[..] == old(slots[..]) && curFd == old(curFd)
      ensures fd != -1 ==> slots[..] == old(slots[..])[fd := Some(f)] && curFd == fd
      ensures fd != -1 ==> GetFile(fd) == Some(f)
    {
      var tmpFd := 2;
      while tmpFd < FD_END
        invariant 2 <= tmpFd <= FD_END
        invariant LowestFree(slots[..], 2) == LowestFree(slots[..], tmpFd)
        invariant slots[..] == old(slots[..]) && curFd == old(curFd)
      {
        if slots[tmpFd] == None {
          slots[tmpFd] := Some(f);
          curFd := tmpFd;
          return curFd;
        }
        tmpFd := tmpFd + 1;
      }
      return -1;
    }

    /** process_close_file: for a descriptor of 2..127 whose slot holds a
        file, empty that slot and close the file; otherwise do nothing. */
    method CloseFile(env: Env, fd: int)
      requires Valid()
      modifies slots, env
      ensures Valid()
      ensures old(GetFile(fd)).Some? ==> && slots[..] == old(slots[..])[fd := None]
                                         && env.calls == old(env.calls) + [Close(old(GetFile(fd)).value)]
      ensures old(GetFile(fd)).None? ==> slots[..] == old(slots[..]) && env.calls == old(env.calls)
      ensures GetFile(fd) == None
      ensures forall g :: g != fd ==> GetFile(g) == old(GetFile(g))
      ensures env.files == old(env.files) && env.pos == old(env.pos)
      ensures env.nextHandle == old(env.nextHandle) && env.freeFrames == old(env.freeFrames)
    {
      if fd < 2 || fd > 127 {
        return;
      }
      var openFile := GetFile(fd);
      if openFile == None {
        return;
      }
      slots[fd] := None;
      env.calls := env.calls + [Close(openFile.value)];
    }
  }
}
