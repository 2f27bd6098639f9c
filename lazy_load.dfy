/** lazy_load_segment (userprog/process.c): the init callback that fills a
    freshly claimed frame from the file region a container describes. */
module LazyLoad {
  import opened VmTypes

  /** How a frame looks after lazy_load_segment, given its bytes before, the
      file's bytes and the container's offset and read count: on success the
      bytes read followed by zeros up to the end of the page; after a short
      read the partial bytes over the old content. */
  ghost predicate LoadOutcome(before: seq<byte>, after: seq<byte>, data: seq<byte>,
                              offset: nat, n: nat, ok: bool)
    requires n <= PGSIZE && |before| == PGSIZE
  {
    var got := FileRead(data, offset, n);
    && ok == (|got| == n)
    && (ok ==> after == got + Zeros(PGSIZE - n))
    && (!ok ==> after == got + before[|got|..])
  }

  /** A loaded frame holds the file's bytes at the container offset and zeros
      past the read count: the page content the executable or mapping asks for. */
  lemma {:induction false} LoadedBytes(before: seq<byte>, after: seq<byte>, data: seq<byte>,
                                       offset: nat, n: nat, i: nat)
    requires n <= PGSIZE && |before| == PGSIZE && i < PGSIZE
    requires LoadOutcome(before, after, data, offset, n, true)
    ensures |after| == PGSIZE
    ensures i < n ==> offset + i < |data| && after[i] == data[offset + i]
    ensures n <= i ==> after[i] == 0
  {
    var got := FileRead(data, offset, n);
    assert |got| == n;
    if i < n {
      assert after[i] == got[i];
    } else {
      assert after[i] == Zeros(PGSIZE - n)[i - n];
    }
  }

  method LazyLoadSegment(page: Page, aux: Container, env: Env) returns (ok: bool)
    requires env.Valid()
    requires page.frame != null && page.frame.kva != null && page.frame.kva.Length == PGSIZE
    requires aux.file in env.files
    requires aux.offset >= 0              // file_seek asserts a non-negative position
    requires 0 <= aux.readBytes <= PGSIZE // a larger count would overrun the frame
    modifies page.frame.kva, env
    ensures env.Valid()
    ensures var got := FileRead(old(env.files[aux.file]), aux.offset, aux.readBytes);
            && env.files == old(env.files) && env.nextHandle == old(env.nextHandle)
            && env.pos == old(env.pos)[aux.file := aux.offset + |got|]
            && (ok ==> env.calls == old(env.calls) && env.freeFrames == old(env.freeFrames))
            && (!ok ==> env.calls == old(env.calls) + [FreeUserPage(page.frame.kva)]
                        && env.freeFrames == old(env.freeFrames) + 1)
    ensures LoadOutcome(old(page.frame.kva[..]), page.frame.kva[..], old(env.files[aux.file]),
                        aux.offset, aux.readBytes, ok)
  {
    var kva := page.frame.kva;
    var data := env.files[aux.file];
    var n := aux.readBytes;
    env.pos := env.pos[aux.file := aux.offset];
    var got := FileRead(data, aux.offset, n);
    forall i | 0 <= i < |got| {
      kva[i] := got[i];
    }
    env.pos := env.pos[aux.file := aux.offset + |got|];
    assert kva[..] == got + old(kva[..])[|got|..];
    if |got| != n {
      env.PallocFreePage(kva);
      return false;
    }
    forall i | n <= i < PGSIZE {
      kva[i] := 0;
    }
    assert kva[..] == got + Zeros(PGSIZE - n);
    ok := true;
  }
}
